// Compression of a descriptor: entries are clipped at a fifth of the norm and
// replaced by their square roots, which keeps the projection exact.
module DescriptorCompression {
  import opened Words
  import opened SquareRoot
  import opened Projection
  import opened Hadamard

  const LENGTH: nat := 128
  const CLIP: nat := 0x3333

  // Sum of squares in 64-bit arithmetic.
  function Energy(values: seq<u32>): u64 {
    if values == [] then 0
    else WrapU64(Energy(values[..|values| - 1]) as int + SquareRoot.Square(values[|values| - 1]))
  }

  function Threshold(norm: nat): nat { norm * CLIP / 0x1_0000 }

  // A fifth of the norm, rounded down, and at most one less from 2^18 on.
  lemma ThresholdIsFifth(norm: nat)
    ensures 5 * Threshold(norm) <= norm
    ensures norm < 5 * Threshold(norm) + 5 + norm / 0x1_0000 + 1
  {
  }

  // What each stored entry is the truncation of: the root of the clipped value.
  ghost predicate Compressed(values: seq<u32>, threshold: nat, output: seq<i16>) {
    && |output| == LENGTH && |values| <= LENGTH
    && (forall i :: 0 <= i < |values| ==> RootOf(output[i], Min(values[i], threshold)))
    && (forall i :: |values| <= i < LENGTH ==> output[i] == 0)
  }

  ghost predicate RootOf(entry: i16, v: nat) { exists r: nat :: IsRoot(r, v) && entry == WrapI16(r) }

  method SumSquares(values: seq<u32>) returns (energy: u64)
    ensures energy == Energy(values)
  {
    energy := 0;
    for i := 0 to |values|
      invariant energy == Energy(values[..i])
    {
      assert values[..i + 1][..i] == values[..i];
      energy := WrapU64(energy as int + SquareRoot.Square(values[i]));
    }
    assert values[..|values|] == values;
  }

  lemma ThresholdFits(norm: nat)
    requires norm < 0x1_0000_0000
    ensures Threshold(norm) < 0x1_0000_0000
  {
  }

  method CompressEntry(value: u32, threshold: u32, cap: u32) returns (entry: i16)
    requires IsRoot(cap, threshold)
    ensures RootOf(entry, Min(value, threshold))
  {
    if value < threshold {
      var root := Isqrt32(value);
      entry := WrapI16(root);
    } else {
      entry := WrapI16(cap);
    }
  }

  method Compress(values: seq<u32>, output: array<i16>) returns (ok: bool, norm: u32)
    requires output.Length == LENGTH
    modifies output
    ensures ok <==> 0 < |values| <= LENGTH
    ensures ok ==> Computed(norm, Energy(values)) && Compressed(values, Threshold(norm), output[..])
  {
    if |values| == 0 || |values| > LENGTH { return false, 0; }
    ok := true;
    var energy := SumSquares(values);
    norm := Isqrt64(energy);
    ThresholdFits(norm);
    var threshold: u32 := Threshold(norm);
    var cap := Isqrt32(threshold);
    forall i | 0 <= i < LENGTH { output[i] := 0; }
    for i := 0 to |values|
      invariant forall j :: 0 <= j < i ==> RootOf(output[j], Min(values[j], threshold))
      invariant forall j :: i <= j < LENGTH ==> output[j] == 0
    {
      var entry := CompressEntry(values[i], threshold, cap);
      output[i] := entry;
    }
  }

  // ---------- the projection stays exact ----------

  const ENERGY_LIMIT: nat := 0x1000_0000_0000

  lemma RootBelow(r: nat, v: nat, limit: nat)
    requires IsRoot(r, v) && v < SquareRoot.Square(limit)
    ensures r < limit
  {
    if r >= limit { SquareMonotone(limit, r); }
  }

  lemma NormBelow(norm: nat, energy: nat)
    requires Computed(norm, energy) && energy < ENERGY_LIMIT
    ensures norm < 0x40_0000
  {
    SquareOfTop();
    RootBelow(norm, energy, 0x40_0000);
  }

  lemma SquareOfTop()
    ensures SquareRoot.Square(TOP) > ENERGY_LIMIT && SquareRoot.Square(0x40_0000) == ENERGY_LIMIT
  {
  }

  // The root of a clipped value is at most 1023 exactly when the value is below
  // 2^20; a root of 16 bits never shows as a negative entry.
  lemma EntryBelow(entry: i16, v: nat)
    requires RootOf(entry, v) && v < 0x4000_0000
    ensures Abs(entry) <= 1023 <==> v < 0x10_0000
  {
    var r: nat :| IsRoot(r, v) && entry == WrapI16(r);
    RootBelow(r, v, 0x8000);
    SmallRoot(r, v);
    NotNegative(r);
  }

  lemma NotNegative(r: nat)
    requires r < 0x8000
    ensures WrapI16(r) as int == r
  {
  }

  lemma SmallRoot(r: nat, v: nat)
    requires IsRoot(r, v)
    ensures r < 0x400 <==> v < 0x10_0000
  {
    if v < 0x10_0000 { RootBelow(r, v, 0x400); }
    if r < 0x400 { SquareMonotone(r + 1, 0x400); }
  }

  // Compressed entries are at most 1023 exactly when every clipped value is
  // below 2^20.
  lemma BoundedExactly(values: seq<u32>, norm: nat, output: seq<i16>)
    requires norm < 0x1_0000_0000 && Compressed(values, Threshold(norm), output)
    ensures Bounded(output) <==> forall i :: 0 <= i < |values| ==> Min(values[i], Threshold(norm)) < 0x10_0000
  {
    assert Threshold(norm) < 0x4000_0000;
    forall i | 0 <= i < |values| ensures Abs(output[i]) <= 1023 <==> Min(values[i], Threshold(norm)) < 0x10_0000 {
      EntryBelow(output[i], Min(values[i], Threshold(norm)));
    }
    if forall i :: 0 <= i < |values| ==> Min(values[i], Threshold(norm)) < 0x10_0000 {
      forall i | 0 <= i < |output| ensures Abs(output[i]) <= 1023 {
        if i < |values| { assert Min(values[i], Threshold(norm)) < 0x10_0000; }
      }
    }
  }

  // Descriptors with a sum of squares below 2^44 compress to entries of at most
  // 1023, so that no partial sum of the projection wraps.
  lemma {:induction false} CompressedIsBounded(values: seq<u32>, norm: nat, output: seq<i16>)
    requires Computed(norm, Energy(values)) && Compressed(values, Threshold(norm), output)
    requires Energy(values) < ENERGY_LIMIT
    ensures Bounded(output)
  {
    NormBelow(norm, Energy(values));
    assert Threshold(norm) < 0x10_0000;
    BoundedExactly(values, norm, output);
  }

  // ---------- an input that the projection gets wrong ----------

  // Thirty-two values of 2^20, the rest zero.
  ghost predicate Step(values: seq<u32>) {
    |values| == LENGTH && forall i :: 0 <= i < LENGTH ==> values[i] == if i < 32 then 0x10_0000 else 0
  }

  lemma StepEnergy(values: seq<u32>, n: nat)
    requires Step(values) && n <= LENGTH
    ensures Energy(values[..n]) == 0x100_0000_0000 * Min(n, 32)
    decreases n
  {
    if n > 0 {
      StepEnergy(values, n - 1);
      assert values[..n][..n - 1] == values[..n - 1];
      assert SquareRoot.Square(values[n - 1]) == if n <= 32 then 0x100_0000_0000 else 0;
    }
  }

  lemma StepThreshold(norm: nat)
    requires Computed(norm, 0x2000_0000_0000)
    ensures 0x10_0000 <= Threshold(norm)
  {
    SquareOfTop();
    if norm < 5_500_000 { SquareMonotone(norm + 1, 5_500_000); }
  }

  lemma RootIs(entry: i16, v: nat, r: nat)
    requires RootOf(entry, v) && IsRoot(r, v) && r < 0x8000
    ensures entry == r
  {
    var s: nat :| IsRoot(s, v) && entry == WrapI16(s);
    UniqueRoot(s, r, v);
    NotNegative(r);
  }

  // It compresses to entries of 1024, and the first projected bit is wrong.
  lemma {:induction false} CompressionCanWrap(values: seq<u32>, norm: nat, output: seq<i16>)
    requires Step(values) && Computed(norm, Energy(values)) && Compressed(values, Threshold(norm), output)
    ensures forall i :: 0 <= i < LENGTH ==> output[i] == if i < 32 then 1024 else 0
    ensures Score(Sign, output, 0, 0) < 0 < Dot(Sign, output, 0)
  {
    assert values[..LENGTH] == values;
    StepEnergy(values, LENGTH);
    StepThreshold(norm);
    forall i | 0 <= i < LENGTH ensures output[i] == if i < 32 then 1024 else 0 {
      RootIs(output[i], Min(values[i], Threshold(norm)), if i < 32 then 1024 else 0);
    }
    BoundIsTight(output);
  }
}
