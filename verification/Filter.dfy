// Separable Q16 filters with mirrored borders: both passes in wrapping 32-bit
// arithmetic, and the fast form for three equal taps.
module Filter {
  import opened Words
  import opened Arithmetic

  type Picture = (nat, nat) -> nat
  type Line = nat -> nat
  type Kernel = seq<nat>

  // Mirrors an index at both ends without repeating the end itself.
  function Reflect(index: int, length: nat): (r: nat)
    requires length > 0
    ensures r < length
    ensures 0 <= index < length ==> r == index
    decreases if index < 0 then 1 - 2 * index else 2 * index
  {
    if length == 1 then 0
    else if index < 0 then Reflect(-index, length)
    else if index >= length then Reflect(length * 2 - index - 2, length)
    else index
  }

  // The mirrored line is even and repeats after 2 * (length - 1) places.
  lemma ReflectIsEven(index: int, length: nat)
    requires length > 0
    ensures Reflect(index, length) == Reflect(-index, length)
  {
  }

  lemma ReflectIsPeriodic(index: int, length: nat)
    requires length > 0
    ensures Reflect(index + 2 * (length - 1), length) == Reflect(index, length)
  {
    ReflectIsEven(index, length);
    if length > 1 && index < 0 && index + 2 * (length - 1) < length {
      ReflectIsEven(index + 2 * (length - 1), length);
    }
  }

  method Reflect101(start: int, length: nat) returns (r: nat)
    requires length > 0
    ensures r == Reflect(start, length)
  {
    if length <= 1 { return 0; }
    var index := start;
    while index < 0 || index >= length
      invariant Reflect(index, length) == Reflect(start, length)
      decreases if index < 0 then 1 - 2 * index else 2 * index
    {
      if index < 0 { index := -index; } else { index := length * 2 - index - 2; }
    }
    r := index;
  }

  // The first k taps around position x of a mirrored line.
  function Taps(line: Line, x: int, length: nat, kernel: Kernel, k: nat): nat
    requires length > 0 && k <= |kernel|
    decreases k
  {
    if k == 0 then 0
    else Taps(line, x, length, kernel, k - 1) + line(Reflect(x + (k - 1) - |kernel| / 2, length)) * kernel[k - 1]
  }

  // One filtered value, before it is stored.
  function Filtered(line: Line, x: int, length: nat, kernel: Kernel): nat
    requires length > 0
  {
    WrapU32(Taps(line, x, length, kernel, |kernel|)) / 0x1_0000
  }

  function Row(f: Picture, y: nat): Line { (x: nat) => f(x, y) }
  function Column(f: Picture, x: nat): Line { (y: nat) => f(x, y) }

  function Horizontal(f: Picture, kernel: Kernel, width: nat): Picture
    requires width > 0
  {
    (x: nat, y: nat) => Filtered(Row(f, y), x, width, kernel)
  }

  function Vertical(f: Picture, kernel: Kernel, height: nat): Picture
    requires height > 0
  {
    (x: nat, y: nat) => Filtered(Column(f, x), y, height, kernel) % 0x1_0000
  }

  function Convolved(f: Picture, kernel: Kernel, width: nat, height: nat): Picture
    requires width > 0 && height > 0
  {
    Vertical(Horizontal(f, kernel, width), kernel, height)
  }

  // ---------- ranges ----------

  function Total(kernel: Kernel, k: nat): nat
    requires k <= |kernel|
    decreases k
  {
    if k == 0 then 0 else Total(kernel, k - 1) + kernel[k - 1]
  }

  ghost predicate Within(line: Line, length: nat, bound: nat) { forall i: nat :: i < length ==> line(i) <= bound }

  lemma {:induction false} TapsBound(line: Line, x: int, length: nat, kernel: Kernel, k: nat, bound: nat)
    requires length > 0 && k <= |kernel| && Within(line, length, bound)
    ensures Taps(line, x, length, kernel, k) <= bound * Total(kernel, k)
    decreases k
  {
    if k > 0 {
      TapsBound(line, x, length, kernel, k - 1, bound);
      var i := Reflect(x + (k - 1) - |kernel| / 2, length);
      TapBound(line(i), kernel[k - 1], bound, Total(kernel, k - 1));
    }
  }

  lemma TapBound(sample: nat, tap: nat, bound: nat, total: nat)
    requires sample <= bound
    ensures bound * total + sample * tap <= bound * (total + tap)
  {
    assert sample * tap <= bound * tap;
  }

  // The largest value a pass can produce from values up to `bound`.
  function PassBound(bound: nat, sum: nat): nat { bound * sum / 0x1_0000 }

  lemma {:induction false} FilteredBound(line: Line, x: int, length: nat, kernel: Kernel, bound: nat)
    requires length > 0 && Within(line, length, bound)
    requires bound * Total(kernel, |kernel|) < 0x1_0000_0000
    ensures Taps(line, x, length, kernel, |kernel|) < 0x1_0000_0000
    ensures Filtered(line, x, length, kernel) == Taps(line, x, length, kernel, |kernel|) / 0x1_0000
    ensures Filtered(line, x, length, kernel) <= PassBound(bound, Total(kernel, |kernel|))
  {
    TapsBound(line, x, length, kernel, |kernel|, bound);
  }

  ghost predicate Below(f: Picture, width: nat, height: nat, bound: nat) {
    forall x: nat, y: nat :: x < width && y < height ==> f(x, y) <= bound
  }

  // Neither pass wraps and nothing is truncated when the result is stored.
  ghost predicate Exact(f: Picture, kernel: Kernel, width: nat, height: nat)
    requires width > 0 && height > 0
  {
    forall x: nat, y: nat :: x < width && y < height ==>
      && Taps(Row(f, y), x, width, kernel, |kernel|) < 0x1_0000_0000
      && Taps(Column(Horizontal(f, kernel, width), x), y, height, kernel, |kernel|) < 0x1_0000_0000
      && Filtered(Column(Horizontal(f, kernel, width), x), y, height, kernel) < 0x1_0000
  }

  lemma {:induction false} HorizontalBound(f: Picture, kernel: Kernel, width: nat, height: nat, bound: nat)
    requires width > 0 && Below(f, width, height, bound) && bound * Total(kernel, |kernel|) < 0x1_0000_0000
    ensures Below(Horizontal(f, kernel, width), width, height, PassBound(bound, Total(kernel, |kernel|)))
    ensures forall x: nat, y: nat :: x < width && y < height ==>
              Taps(Row(f, y), x, width, kernel, |kernel|) < 0x1_0000_0000
  {
    forall x: nat, y: nat | x < width && y < height
      ensures Horizontal(f, kernel, width)(x, y) <= PassBound(bound, Total(kernel, |kernel|))
      ensures Taps(Row(f, y), x, width, kernel, |kernel|) < 0x1_0000_0000
    {
      FilteredBound(Row(f, y), x, width, kernel, bound);
    }
  }

  lemma {:induction false} VerticalBound(g: Picture, kernel: Kernel, width: nat, height: nat, bound: nat)
    requires height > 0 && Below(g, width, height, bound) && bound * Total(kernel, |kernel|) < 0x1_0000_0000
    ensures Below(Vertical(g, kernel, height), width, height, PassBound(bound, Total(kernel, |kernel|)))
    ensures forall x: nat, y: nat :: x < width && y < height ==>
              Taps(Column(g, x), y, height, kernel, |kernel|) < 0x1_0000_0000
              && Filtered(Column(g, x), y, height, kernel) < 0x1_0000
  {
    forall x: nat, y: nat | x < width && y < height
      ensures Vertical(g, kernel, height)(x, y) <= PassBound(bound, Total(kernel, |kernel|))
      ensures Taps(Column(g, x), y, height, kernel, |kernel|) < 0x1_0000_0000
      ensures Filtered(Column(g, x), y, height, kernel) < 0x1_0000
    {
      FilteredBound(Column(g, x), y, height, kernel, bound);
    }
  }

  // Bounds through both passes.
  lemma {:induction false} ConvolvedBound(f: Picture, kernel: Kernel, width: nat, height: nat, bound: nat, sum: nat)
    requires width > 0 && height > 0 && Below(f, width, height, bound) && sum == Total(kernel, |kernel|)
    requires bound * sum < 0x1_0000_0000 && PassBound(bound, sum) * sum < 0x1_0000_0000
    ensures Exact(f, kernel, width, height)
    ensures Below(Convolved(f, kernel, width, height), width, height, PassBound(PassBound(bound, sum), sum))
  {
    HorizontalBound(f, kernel, width, height, bound);
    VerticalBound(Horizontal(f, kernel, width), kernel, width, height, PassBound(bound, sum));
  }

  // ---------- the passes ----------

  ghost predicate Shows(a: array2<u16>, f: Picture)
    reads a
  {
    forall x: nat, y: nat :: x < a.Length1 && y < a.Length0 ==> a[y, x] == f(x, y)
  }

  ghost predicate ShowsWords(a: array2<u32>, f: Picture)
    reads a
  {
    forall x: nat, y: nat :: x < a.Length1 && y < a.Length0 ==> a[y, x] == f(x, y)
  }

  // One value of the horizontal pass.
  method RowTaps(input: array2<u16>, x: nat, y: nat, kernel: Kernel, ghost f: Picture) returns (v: u32)
    requires x < input.Length1 && y < input.Length0
    requires forall i: nat :: i < input.Length1 ==> input[y, i] == f(i, y)
    ensures v == Filtered(Row(f, y), x, input.Length1, kernel)
  {
    var sum: u32 := 0;
    for k := 0 to |kernel|
      invariant sum == WrapU32(Taps(Row(f, y), x, input.Length1, kernel, k))
    {
      var sx := Reflect101(x + k - |kernel| / 2, input.Length1);
      WrapAdd(Taps(Row(f, y), x, input.Length1, kernel, k), input[y, sx] * kernel[k]);
      sum := WrapU32(sum as int + input[y, sx] * kernel[k]);
    }
    v := sum / 0x1_0000;
  }

  method ColumnTaps(horizontal: array2<u32>, x: nat, y: nat, kernel: Kernel, ghost g: Picture) returns (v: u16)
    requires x < horizontal.Length1 && y < horizontal.Length0
    requires forall i: nat :: i < horizontal.Length0 ==> horizontal[i, x] == g(x, i)
    ensures v == Filtered(Column(g, x), y, horizontal.Length0, kernel) % 0x1_0000
  {
    var sum: u32 := 0;
    for k := 0 to |kernel|
      invariant sum == WrapU32(Taps(Column(g, x), y, horizontal.Length0, kernel, k))
    {
      var sy := Reflect101(y + k - |kernel| / 2, horizontal.Length0);
      WrapAdd(Taps(Column(g, x), y, horizontal.Length0, kernel, k), horizontal[sy, x] * kernel[k]);
      sum := WrapU32(sum as int + horizontal[sy, x] * kernel[k]);
    }
    v := sum / 0x1_0000 % 0x1_0000;
  }

  method HorizontalPass(input: array2<u16>, kernel: Kernel, ghost f: Picture) returns (horizontal: array2<u32>)
    requires input.Length0 > 0 && input.Length1 > 0 && Shows(input, f)
    ensures fresh(horizontal) && horizontal.Length0 == input.Length0 && horizontal.Length1 == input.Length1
    ensures ShowsWords(horizontal, Horizontal(f, kernel, input.Length1))
  {
    horizontal := new u32[input.Length0, input.Length1]((_, _) => 0);
    for y := 0 to input.Length0
      invariant forall i: nat, j: nat :: i < input.Length1 && j < y ==>
                  horizontal[j, i] == Horizontal(f, kernel, input.Length1)(i, j)
    {
      for x := 0 to input.Length1
        invariant forall i: nat, j: nat :: i < input.Length1 && (j < y || (j == y && i < x)) ==>
                    horizontal[j, i] == Horizontal(f, kernel, input.Length1)(i, j)
      {
        var v := RowTaps(input, x, y, kernel, f);
        horizontal[y, x] := v;
      }
    }
  }

  method VerticalPass(horizontal: array2<u32>, output: array2<u16>, kernel: Kernel, ghost g: Picture)
    requires horizontal.Length0 == output.Length0 > 0 && horizontal.Length1 == output.Length1 > 0
    requires ShowsWords(horizontal, g) && output as object != horizontal
    modifies output
    ensures Shows(output, Vertical(g, kernel, output.Length0))
  {
    for y := 0 to output.Length0
      invariant ShowsWords(horizontal, g)
      invariant forall i: nat, j: nat :: i < output.Length1 && j < y ==>
                  output[j, i] == Vertical(g, kernel, output.Length0)(i, j)
    {
      for x := 0 to output.Length1
        invariant ShowsWords(horizontal, g)
        invariant forall i: nat, j: nat :: i < output.Length1 && (j < y || (j == y && i < x)) ==>
                    output[j, i] == Vertical(g, kernel, output.Length0)(i, j)
      {
        var v := ColumnTaps(horizontal, x, y, kernel, g);
        output[y, x] := v;
      }
    }
  }

  // Odd length, no negative tap, the same from both ends.
  predicate ValidTaps(taps: seq<i32>) {
    && |taps| % 2 == 1
    && forall k :: 0 <= k < |taps| ==> taps[k] >= 0 && taps[k] == taps[|taps| - 1 - k]
  }

  method CheckTaps(taps: seq<i32>) returns (valid: bool)
    ensures valid <==> ValidTaps(taps)
  {
    if |taps| % 2 == 0 { return false; }
    for k := 0 to |taps|
      invariant forall j :: 0 <= j < k ==> taps[j] >= 0 && taps[j] == taps[|taps| - 1 - j]
    {
      if taps[k] < 0 || taps[k] != taps[|taps| - 1 - k] { return false; }
    }
    valid := true;
  }

  // Two images of one size that is not empty.
  predicate SameImage(a: array2<u16>, b: array2<u16>) {
    a.Length0 == b.Length0 > 0 && a.Length1 == b.Length1 > 0
  }

  // Source and destination may be the same image: the whole horizontal pass is
  // done before anything is written.
  method FilterImage(source: array2<u16>, destination: array2<u16>, taps: seq<i32>, ghost f: Picture) returns (ok: bool)
    requires Shows(source, f)
    modifies destination
    ensures ok <==> ValidTaps(taps) && SameImage(source, destination)
    ensures ok ==> Shows(destination, Convolved(f, taps, source.Length1, source.Length0))
    ensures !ok ==> forall i, j :: 0 <= i < destination.Length0 && 0 <= j < destination.Length1 ==>
                      destination[i, j] == old(destination[i, j])
  {
    if !SameImage(source, destination) { return false; }
    ok := CheckTaps(taps);
    if ok {
      var kernel: Kernel := taps;
      var horizontal := HorizontalPass(source, kernel, f);
      VerticalPass(horizontal, destination, kernel, Horizontal(f, kernel, source.Length1));
    }
  }

  // ---------- three equal taps ----------

  const CODE_6: Kernel := [21845, 21845, 21845]

  // The samples that the middle, previous and next taps see.
  function Three(line: Line, x: nat, length: nat): nat
    requires x < length
  {
    line(Reflect(x - 1, length)) + line(x) + line(Reflect(x + 1, length))
  }

  lemma {:induction false} ThreeEqualTaps(line: Line, x: nat, length: nat, kernel: Kernel, n: nat)
    requires x < length && kernel == CODE_6 && n == 3
    ensures Taps(line, x, length, kernel, n) == Three(line, x, length) * 21845
  {
    assert Taps(line, x, length, kernel, n - 2) == line(Reflect(x - 1, length)) * 21845;
    assert Taps(line, x, length, kernel, n - 1) == Taps(line, x, length, kernel, n - 2)
           + line(Reflect(x, length)) * 21845;
    assert Reflect(x, length) == x;
  }

  // Adding first and multiplying once gives the generic filter's value.
  lemma FastIsFiltered(line: Line, x: nat, length: nat)
    requires x < length
    ensures WrapU32(Three(line, x, length) * 21845) / 0x1_0000 == Filtered(line, x, length, CODE_6)
  {
    ThreeEqualTaps(line, x, length, CODE_6, |CODE_6|);
  }

  method FastHorizontal(input: array2<u16>, x: nat, y: nat, ghost f: Picture) returns (v: u32)
    requires x < input.Length1 && y < input.Length0
    requires forall i: nat :: i < input.Length1 ==> input[y, i] == f(i, y)
    ensures v == Filtered(Row(f, y), x, input.Length1, CODE_6)
  {
    var x0 := Reflect101(x - 1, input.Length1);
    var x2 := Reflect101(x + 1, input.Length1);
    FastIsFiltered(Row(f, y), x, input.Length1);
    var sum := input[y, x0] as int + input[y, x] as int + input[y, x2] as int;
    v := WrapU32(sum * 21845) / 0x1_0000;
  }

  method FastVertical(horizontal: array2<u32>, x: nat, y: nat, ghost g: Picture) returns (v: u16)
    requires x < horizontal.Length1 && y < horizontal.Length0
    requires forall i: nat :: i < horizontal.Length0 ==> horizontal[i, x] == g(x, i)
    ensures v == Filtered(Column(g, x), y, horizontal.Length0, CODE_6) % 0x1_0000
  {
    var y0 := Reflect101(y - 1, horizontal.Length0);
    var y2 := Reflect101(y + 1, horizontal.Length0);
    FastIsFiltered(Column(g, x), y, horizontal.Length0);
    var sum := horizontal[y0, x] as int + horizontal[y, x] as int + horizontal[y2, x] as int;
    v := WrapU32(sum * 21845) / 0x1_0000 % 0x1_0000;
  }

  method FastHorizontalPass(source: array2<u16>, ghost f: Picture) returns (horizontal: array2<u32>)
    requires source.Length0 > 0 && source.Length1 > 0 && Shows(source, f)
    ensures fresh(horizontal) && horizontal.Length0 == source.Length0 && horizontal.Length1 == source.Length1
    ensures ShowsWords(horizontal, Horizontal(f, CODE_6, source.Length1))
  {
    var width, height := source.Length1, source.Length0;
    ghost var g := Horizontal(f, CODE_6, width);
    horizontal := new u32[height, width]((_, _) => 0);
    for y := 0 to height
      invariant forall i: nat, j: nat :: i < width && j < y ==> horizontal[j, i] == g(i, j)
    {
      for x := 0 to width
        invariant forall i: nat, j: nat :: i < width && (j < y || (j == y && i < x)) ==> horizontal[j, i] == g(i, j)
      {
        var v := FastHorizontal(source, x, y, f);
        horizontal[y, x] := v;
      }
    }
  }

  // The fast path computes what the generic filter computes for these taps.
  method FilterCode6(source: array2<u16>, destination: array2<u16>, ghost f: Picture) returns (ok: bool)
    requires Shows(source, f)
    modifies destination
    ensures ok <==> SameImage(source, destination)
    ensures ok ==> Shows(destination, Convolved(f, CODE_6, source.Length1, source.Length0))
    ensures !ok ==> forall i, j :: 0 <= i < destination.Length0 && 0 <= j < destination.Length1 ==>
                      destination[i, j] == old(destination[i, j])
  {
    ok := SameImage(source, destination);
    if ok {
      var horizontal := FastHorizontalPass(source, f);
      FastVerticalPass(horizontal, destination, Horizontal(f, CODE_6, source.Length1));
    }
  }

  method FastVerticalPass(horizontal: array2<u32>, output: array2<u16>, ghost g: Picture)
    requires horizontal.Length0 == output.Length0 > 0 && horizontal.Length1 == output.Length1 > 0
    requires ShowsWords(horizontal, g) && output as object != horizontal
    modifies output
    ensures Shows(output, Vertical(g, CODE_6, output.Length0))
  {
    for y := 0 to output.Length0
      invariant ShowsWords(horizontal, g)
      invariant forall i: nat, j: nat :: i < output.Length1 && j < y ==>
                  output[j, i] == Vertical(g, CODE_6, output.Length0)(i, j)
    {
      for x := 0 to output.Length1
        invariant ShowsWords(horizontal, g)
        invariant forall i: nat, j: nat :: i < output.Length1 && (j < y || (j == y && i < x)) ==>
                    output[j, i] == Vertical(g, CODE_6, output.Length0)(i, j)
      {
        var v := FastVertical(horizontal, x, y, g);
        output[y, x] := v;
      }
    }
  }
}
