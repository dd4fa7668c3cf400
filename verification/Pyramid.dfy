// The nine-level response pyramid of profile 24: the order in which its
// filters are chained, and the range of every level.
module Pyramid {
  import opened Words
  import opened Filter

  const LEVELS: nat := 9

  const TAPS_300: seq<nat> := [291, 3539, 15862, 26152, 15862, 3539, 291]
  const TAPS_301: seq<nat> := [77, 913, 5345, 15439, 21988, 15439, 5345, 913, 77]
  const TAPS_302: seq<nat> := [16, 1124, 14549, 34158, 14549, 1124, 16]
  const TAPS_303: seq<nat> := [126, 2569, 15710, 28726, 15710, 2569, 126]
  const TAPS_304: seq<nat> := [26, 519, 4382, 15764, 24155, 15764, 4382, 519, 26]
  const TAPS_305: seq<nat> := [163, 1344, 6077, 15025, 20318, 15025, 6077, 1344, 163]
  const TAPS_306: seq<nat> := [82, 562, 2503, 7276, 13802, 17086, 13802, 7276, 2503, 562, 82]
  const TAPS_307: seq<nat> := [63, 331, 1285, 3695, 7857, 12355, 14367, 12355, 7857, 3695, 1285, 331, 63]
  const TAPS_308: seq<nat> := [65, 259, 839, 2192, 4625, 7886, 10860, 12084, 10860, 7886, 4625, 2192, 839, 259, 65]

  // Taps by level; level 0 is code 300.
  function KernelOf(k: nat): Kernel {
    match k
    case 0 => TAPS_300
    case 1 => TAPS_301
    case 2 => TAPS_302
    case 3 => TAPS_303
    case 4 => TAPS_304
    case 5 => TAPS_305
    case 6 => TAPS_306
    case 7 => TAPS_307
    case _ => TAPS_308
  }

  function SumOf(k: nat): nat { if k == 4 then 65537 else if k == 7 then 65539 else 65536 }

  ghost predicate Checked(t: Kernel, sum: nat) {
    (forall i :: 0 <= i < |t| ==> t[i] < 0x8000_0000) && ValidTaps(t) && Total(t, |t|) == sum && Rises(t)
  }

  // Strictly up to the middle.
  ghost predicate Rises(t: Kernel) { forall i, j :: 0 <= i < j <= |t| / 2 && j < |t| ==> t[i] < t[j] }

  lemma Check300(t: Kernel)
    requires t == TAPS_300
    ensures Checked(t, 65536)
  {
    assert t[0] == t[6] && t[1] == t[5] && t[2] == t[4];
    assert Total(t, 4) == 45844;
  }

  lemma Check301(t: Kernel)
    requires t == TAPS_301
    ensures Checked(t, 65536)
  {
    assert t[0] == t[8] && t[1] == t[7] && t[2] == t[6] && t[3] == t[5];
    assert Total(t, 5) == 43762;
  }

  lemma Check302(t: Kernel)
    requires t == TAPS_302
    ensures Checked(t, 65536)
  {
    assert t[0] == t[6] && t[1] == t[5] && t[2] == t[4];
    assert Total(t, 4) == 49847;
  }

  lemma Check303(t: Kernel)
    requires t == TAPS_303
    ensures Checked(t, 65536)
  {
    assert t[0] == t[6] && t[1] == t[5] && t[2] == t[4];
    assert Total(t, 4) == 47131;
  }

  lemma Check304(t: Kernel)
    requires t == TAPS_304
    ensures Checked(t, 65537)
  {
    assert t[0] == t[8] && t[1] == t[7] && t[2] == t[6] && t[3] == t[5];
    assert Total(t, 5) == 44846;
  }

  lemma Check305(t: Kernel)
    requires t == TAPS_305
    ensures Checked(t, 65536)
  {
    assert t[0] == t[8] && t[1] == t[7] && t[2] == t[6] && t[3] == t[5];
    assert Total(t, 5) == 42927;
  }

  lemma Check306(t: Kernel)
    requires t == TAPS_306
    ensures Checked(t, 65536)
  {
    assert t[0] == t[10] && t[1] == t[9] && t[2] == t[8] && t[3] == t[7] && t[4] == t[6];
    assert Total(t, 6) == 41311;
  }

  lemma Check307(t: Kernel)
    requires t == TAPS_307
    ensures Checked(t, 65539)
  {
    assert t[0] == t[12] && t[1] == t[11] && t[2] == t[10] && t[3] == t[9] && t[4] == t[8] && t[5] == t[7];
    assert Total(t, 7) == 39953;
  }

  lemma Check308(t: Kernel)
    requires t == TAPS_308
    ensures Checked(t, 65536)
  {
    assert t[0] == t[14] && t[1] == t[13] && t[2] == t[12] && t[3] == t[11] && t[4] == t[10] && t[5] == t[9]
           && t[6] == t[8];
    assert Total(t, 8) == 38810;
  }

  lemma KernelChecks(k: nat)
    requires k < LEVELS
    ensures Checked(KernelOf(k), SumOf(k))
  {
    match k
    case 0 => Check300(TAPS_300);
    case 1 => Check301(TAPS_301);
    case 2 => Check302(TAPS_302);
    case 3 => Check303(TAPS_303);
    case 4 => Check304(TAPS_304);
    case 5 => Check305(TAPS_305);
    case 6 => Check306(TAPS_306);
    case 7 => Check307(TAPS_307);
    case _ => Check308(TAPS_308);
  }

  type Kernels = nat -> Kernel

  // Bytes moved to the high half of a 16-bit pixel.
  function Base(f: Picture): Picture { (x: nat, y: nat) => f(x, y) * 0x100 }

  // Levels 0 and 1 both filter the base picture; every later level filters the
  // one before it.
  function Level(kernels: Kernels, base: Picture, width: nat, height: nat, k: nat): Picture
    requires width > 0 && height > 0
    decreases k
  {
    Convolved(LevelInput(kernels, base, width, height, k), kernels(k), width, height)
  }

  function LevelInput(kernels: Kernels, base: Picture, width: nat, height: nat, k: nat): Picture
    requires width > 0 && height > 0
    decreases k, 0
  {
    if k <= 1 then base else Convolved(LevelInput(kernels, base, width, height, k - 1), kernels(k - 1), width, height)
  }

  function LevelBound(k: nat): nat { if k < 7 then 65280 else 65284 }

  ghost predicate Sums(kernels: Kernels) {
    forall k: nat :: k < LEVELS ==> Total(kernels(k), |kernels(k)|) == SumOf(k)
  }

  lemma PassBounds(k: nat, bound: nat)
    requires k < LEVELS && bound == if k <= 7 then 65280 else 65284
    ensures bound * SumOf(k) < 0x1_0000_0000 && PassBound(bound, SumOf(k)) * SumOf(k) < 0x1_0000_0000
    ensures PassBound(PassBound(bound, SumOf(k)), SumOf(k)) == LevelBound(k)
  {
  }

  // For every 8-bit source of any size: no accumulator of any level wraps, no
  // stored pixel is truncated, and no pixel exceeds 65284.
  lemma {:induction false} LevelsInRange(kernels: Kernels, base: Picture, width: nat, height: nat, k: nat)
    requires width > 0 && height > 0 && k < LEVELS && Sums(kernels) && Below(base, width, height, 65280)
    ensures Exact(LevelInput(kernels, base, width, height, k), kernels(k), width, height)
    ensures Below(Level(kernels, base, width, height, k), width, height, LevelBound(k))
    decreases k
  {
    if k > 1 { LevelsInRange(kernels, base, width, height, k - 1); }
    var bound := if k <= 7 then 65280 else 65284;
    PassBounds(k, bound);
    ConvolvedBound(LevelInput(kernels, base, width, height, k), kernels(k), width, height, bound, SumOf(k));
  }

  lemma Profile24Sums()
    ensures Sums(KernelOf)
  {
    forall k: nat | k < LEVELS ensures Total(KernelOf(k), |KernelOf(k)|) == SumOf(k) { KernelChecks(k); }
  }

  ghost predicate Bytes(f: Picture, width: nat, height: nat) { Below(f, width, height, 0xff) }

  lemma {:induction false} Profile24InRange(f: Picture, width: nat, height: nat, k: nat)
    requires width > 0 && height > 0 && k < LEVELS && Bytes(f, width, height)
    ensures Exact(LevelInput(KernelOf, Base(f), width, height, k), KernelOf(k), width, height)
    ensures Below(Level(KernelOf, Base(f), width, height, k), width, height, 65284)
  {
    Profile24Sums();
    LevelsInRange(KernelOf, Base(f), width, height, k);
  }

  // ---------- the chain ----------

  ghost predicate SameSize(levels: seq<array2<u16>>, width: nat, height: nat) {
    && |levels| == LEVELS && width > 0 && height > 0
    && (forall k :: 0 <= k < LEVELS ==> levels[k].Length0 == height && levels[k].Length1 == width)
    && forall i, j :: 0 <= i < j < LEVELS ==> levels[i] != levels[j]
  }

  method Widen(source: array2<u8>, first: array2<u16>, ghost f: Picture)
    requires source.Length0 == first.Length0 && source.Length1 == first.Length1 && source as object != first
    requires forall x: nat, y: nat :: x < source.Length1 && y < source.Length0 ==> source[y, x] == f(x, y)
    modifies first
    ensures Shows(first, Base(f))
  {
    for y := 0 to source.Length0
      invariant forall i: nat, j: nat :: i < source.Length1 && j < source.Length0 ==> source[j, i] == f(i, j)
      invariant forall i: nat, j: nat :: i < source.Length1 && j < y ==> first[j, i] == Base(f)(i, j)
    {
      for x := 0 to source.Length1
        invariant forall i: nat, j: nat :: i < source.Length1 && j < source.Length0 ==> source[j, i] == f(i, j)
        invariant forall i: nat, j: nat :: i < source.Length1 && (j < y || (j == y && i < x)) ==>
                    first[j, i] == Base(f)(i, j)
      {
        first[y, x] := source[y, x] * 0x100;
      }
    }
  }

  method FilterLevel(source: array2<u16>, destination: array2<u16>, k: nat, ghost f: Picture)
    requires k < LEVELS && source.Length0 == destination.Length0 > 0 && source.Length1 == destination.Length1 > 0
    requires Shows(source, f)
    modifies destination
    ensures Shows(destination, Convolved(f, KernelOf(k), source.Length1, source.Length0))
  {
    KernelChecks(k);
    var taps := KernelOf(k);
    TapsFit(taps, |taps|);
    var ok := FilterImage(source, destination, taps, f);
  }

  lemma {:induction false} TapsFit(kernel: Kernel, n: nat)
    requires n <= |kernel| && Total(kernel, n) <= 65539
    ensures forall i :: 0 <= i < n ==> kernel[i] <= 65539
    decreases n
  {
    if n > 0 { TapsFit(kernel, n - 1); }
  }

  // Level 1 first, then level 0 in place, then each level from the one before.
  method Prepare(source: array2<u8>, levels: seq<array2<u16>>, ghost f: Picture)
    requires SameSize(levels, source.Length1, source.Length0)
    requires forall k :: 0 <= k < LEVELS ==> levels[k] as object != source
    requires forall x: nat, y: nat :: x < source.Length1 && y < source.Length0 ==> source[y, x] == f(x, y)
    modifies set k | 0 <= k < LEVELS :: levels[k]
    ensures forall k: nat :: k < LEVELS ==>
              Shows(levels[k], Level(KernelOf, Base(f), source.Length1, source.Length0, k))
  {
    Widen(source, levels[0], f);
    FilterLevel(levels[0], levels[1], 1, Base(f));
    FilterLevel(levels[0], levels[0], 0, Base(f));
    for index := 2 to LEVELS
      invariant forall k: nat :: k < index ==>
                  Shows(levels[k], Level(KernelOf, Base(f), source.Length1, source.Length0, k))
    {
      FilterLevel(levels[index - 1], levels[index], index,
                  Level(KernelOf, Base(f), source.Length1, source.Length0, index - 1));
    }
  }
}
