// Where a filter sits: a kernel with a single middle tap changes nothing, and
// filtering commutes with mirroring the picture either way.
module FilterSymmetry {
  import opened Words
  import opened Arithmetic
  import opened Filter

  // ---------- one middle tap ----------

  // Odd length, zero away from the middle.
  ghost predicate MiddleOnly(kernel: Kernel, c: nat) {
    |kernel| == 2 * c + 1 && forall j :: 0 <= j < |kernel| && j != c ==> kernel[j] == 0
  }

  lemma {:induction false} MiddleTap(line: Line, x: nat, length: nat, kernel: Kernel, c: nat, k: nat)
    requires x < length && MiddleOnly(kernel, c) && k <= |kernel|
    ensures Taps(line, x, length, kernel, k) == if k > c then line(x) * kernel[c] else 0
    decreases k
  {
    if k > 0 { MiddleTap(line, x, length, kernel, c, k - 1); }
  }

  lemma WholeUnits(v: nat)
    requires v < 0x1_0000
    ensures WrapU32(v * 0x1_0000) / 0x1_0000 == v
  {
  }

  lemma IdentityLine(line: Line, x: nat, length: nat, kernel: Kernel, c: nat)
    requires x < length && MiddleOnly(kernel, c) && kernel[c] == 0x1_0000 && line(x) < 0x1_0000
    ensures Filtered(line, x, length, kernel) == line(x)
  {
    MiddleTap(line, x, length, kernel, c, |kernel|);
    WholeUnits(line(x));
  }

  // One in the middle and nothing else: every 16-bit picture stays as it is.
  lemma IdentityKernel(f: Picture, kernel: Kernel, c: nat, width: nat, height: nat, x: nat, y: nat)
    requires MiddleOnly(kernel, c) && kernel[c] == 0x1_0000 && x < width && y < height
             && Below(f, width, height, 0xffff)
    ensures Convolved(f, kernel, width, height)(x, y) == f(x, y)
  {
    var g := Horizontal(f, kernel, width);
    forall j: nat | j < height ensures g(x, j) == f(x, j) {
      IdentityLine(Row(f, j), x, width, kernel, c);
    }
    IdentityLine(Column(g, x), y, height, kernel, c);
  }

  // ---------- mirroring ----------

  lemma {:induction false} ReflectMirrors(i: int, length: nat)
    requires length > 0
    ensures Reflect(length - 1 - i, length) == length - 1 - Reflect(i, length)
    decreases if i < 0 then 1 - 2 * i else 2 * i
  {
    if length > 1 {
      if i < 0 {
        ReflectMirrors(-i, length);
      } else if i >= length {
        ReflectMirrors(length * 2 - i - 2, length);
      }
    }
  }

  type Terms = nat -> int

  function SumTo(f: Terms, n: nat): int
    decreases n, f
  {
    if n == 0 then 0 else SumTo(f, n - 1) + f(n - 1)
  }

  function After(f: Terms): Terms { (j: nat) => f(j + 1) }

  lemma {:induction false} FirstApart(f: Terms, n: nat)
    ensures SumTo(f, n + 1) == f(0) + SumTo(After(f), n)
    decreases n
  {
    if n > 0 { FirstApart(f, n - 1); } else { assert SumTo(f, n) == 0; }
  }

  // A sum taken from the other end.
  lemma {:induction false} SumReversed(f: Terms, g: Terms, n: nat)
    requires forall j: nat :: j < n ==> g(j) == f(n - 1 - j)
    ensures SumTo(g, n) == SumTo(f, n)
    decreases n
  {
    if n > 0 {
      FirstApart(f, n - 1);
      forall j: nat | j < n - 1 ensures g(j) == After(f)(n - 2 - j) { }
      SumReversed(After(f), g, n - 1);
    }
  }

  function TermOf(line: Line, x: int, length: nat, kernel: Kernel): Terms
    requires length > 0
  {
    (j: nat) => if j < |kernel| then line(Reflect(x + j - |kernel| / 2, length)) * kernel[j] else 0
  }

  lemma {:induction false} TapsAreSum(line: Line, x: int, length: nat, kernel: Kernel, k: nat)
    requires length > 0 && k <= |kernel|
    ensures Taps(line, x, length, kernel, k) == SumTo(TermOf(line, x, length, kernel), k)
    decreases k
  {
    if k > 0 { TapsAreSum(line, x, length, kernel, k - 1); }
  }

  lemma {:induction false} WholeSum(line: Line, x: int, length: nat, kernel: Kernel)
    requires length > 0
    ensures Taps(line, x, length, kernel, |kernel|) == SumTo(TermOf(line, x, length, kernel), |kernel|)
  {
    TapsAreSum(line, x, length, kernel, |kernel|);
  }

  // What every accepted kernel is.
  ghost predicate Symmetric(kernel: Kernel) {
    |kernel| % 2 == 1 && forall j :: 0 <= j < |kernel| ==> kernel[j] == kernel[|kernel| - 1 - j]
  }

  // One line is the other read backwards.
  ghost predicate Mirrored(line: Line, line': Line, length: nat) {
    forall i: nat :: i < length ==> line'(i) == line(length - 1 - i)
  }

  lemma MirroredTerm(line: Line, line': Line, x: nat, length: nat, kernel: Kernel, j: nat)
    requires x < length && Symmetric(kernel) && Mirrored(line, line', length) && j < |kernel|
    ensures TermOf(line', length - 1 - x, length, kernel)(j) == TermOf(line, x, length, kernel)(|kernel| - 1 - j)
  {
    var c := |kernel| / 2;
    ReflectMirrors(x - j + c, length);
    assert length - 1 - (x - j + c) == length - 1 - x + j - c;
    assert x + (|kernel| - 1 - j) - c == x - j + c;
  }

  lemma {:induction false} TermsReversed(line: Line, line': Line, x: nat, length: nat, kernel: Kernel)
    requires x < length && Symmetric(kernel) && Mirrored(line, line', length)
    ensures SumTo(TermOf(line', length - 1 - x, length, kernel), |kernel|)
         == SumTo(TermOf(line, x, length, kernel), |kernel|)
  {
    var f, g := TermOf(line, x, length, kernel), TermOf(line', length - 1 - x, length, kernel);
    forall j: nat | j < |kernel| ensures g(j) == f(|kernel| - 1 - j) {
      MirroredTerm(line, line', x, length, kernel, j);
    }
    SumReversed(f, g, |kernel|);
  }

  lemma {:induction false} TapsMirrored(line: Line, line': Line, x: nat, length: nat, kernel: Kernel)
    requires x < length && Symmetric(kernel) && Mirrored(line, line', length)
    ensures Taps(line', length - 1 - x, length, kernel, |kernel|) == Taps(line, x, length, kernel, |kernel|)
  {
    TermsReversed(line, line', x, length, kernel);
    WholeSum(line, x, length, kernel);
    WholeSum(line', length - 1 - x, length, kernel);
  }

  lemma {:induction false} TapsSame(line: Line, line': Line, x: int, length: nat, kernel: Kernel, k: nat)
    requires length > 0 && k <= |kernel| && forall i: nat :: i < length ==> line'(i) == line(i)
    ensures Taps(line', x, length, kernel, k) == Taps(line, x, length, kernel, k)
    decreases k
  {
    if k > 0 { TapsSame(line, line', x, length, kernel, k - 1); }
  }

  function FlipX(f: Picture, width: nat): Picture { (x: nat, y: nat) => if x < width then f(width - 1 - x, y) else 0 }
  function FlipY(f: Picture, height: nat): Picture {
    (x: nat, y: nat) => if y < height then f(x, height - 1 - y) else 0
  }

  // For every kernel the filter accepts, filtering the picture mirrored left to
  // right gives the mirrored result.
  lemma FilterMirrorsX(f: Picture, kernel: Kernel, width: nat, height: nat, x: nat, y: nat)
    requires Symmetric(kernel) && x < width && y < height
    ensures Convolved(FlipX(f, width), kernel, width, height)(x, y)
         == Convolved(f, kernel, width, height)(width - 1 - x, y)
  {
    var g, h := Horizontal(f, kernel, width), Horizontal(FlipX(f, width), kernel, width);
    forall j: nat ensures h(x, j) == g(width - 1 - x, j) {
      TapsMirrored(Row(f, j), Row(FlipX(f, width), j), width - 1 - x, width, kernel);
    }
    TapsSame(Column(g, width - 1 - x), Column(h, x), y, height, kernel, |kernel|);
  }

  // The same from top to bottom.
  lemma FilterMirrorsY(f: Picture, kernel: Kernel, width: nat, height: nat, x: nat, y: nat)
    requires Symmetric(kernel) && x < width && y < height
    ensures Convolved(FlipY(f, height), kernel, width, height)(x, y)
         == Convolved(f, kernel, width, height)(x, height - 1 - y)
  {
    var g, h := Horizontal(f, kernel, width), Horizontal(FlipY(f, height), kernel, width);
    forall j: nat | j < height ensures h(x, j) == g(x, height - 1 - j) {
      TapsSame(Row(f, height - 1 - j), Row(FlipY(f, height), j), x, width, kernel, |kernel|);
    }
    TapsMirrored(Column(g, x), Column(h, x), height - 1 - y, height, kernel);
  }

  // Only what lies inside the picture matters.
  ghost predicate Agree(f: Picture, g: Picture, width: nat, height: nat) {
    forall x: nat, y: nat :: x < width && y < height ==> f(x, y) == g(x, y)
  }

  lemma ConvolvedSame(f: Picture, g: Picture, kernel: Kernel, width: nat, height: nat)
    requires width > 0 && height > 0 && Agree(f, g, width, height)
    ensures Agree(Convolved(f, kernel, width, height), Convolved(g, kernel, width, height), width, height)
  {
    var hf, hg := Horizontal(f, kernel, width), Horizontal(g, kernel, width);
    forall x: nat, y: nat | x < width && y < height ensures hf(x, y) == hg(x, y) {
      TapsSame(Row(g, y), Row(f, y), x, width, kernel, |kernel|);
    }
    forall x: nat, y: nat | x < width && y < height
      ensures Convolved(f, kernel, width, height)(x, y) == Convolved(g, kernel, width, height)(x, y)
    {
      TapsSame(Column(hg, x), Column(hf, x), y, height, kernel, |kernel|);
    }
  }
}
