// Bit counting, descriptor distance and the mode pass over feature records.
// Bytes and words are bit vectors here.
module Descriptor {
  type Bytes = seq<bv8>

  const DESCRIPTOR_BYTES: nat := 20

  // ---------- counting bits ----------

  function BitAt(v: bv8, k: bv8): nat
    requires k < 8
  {
    if (v >> k) & 1 != 0 then 1 else 0
  }

  // The number of set bits of a byte.
  function Ones(v: bv8): nat {
    BitAt(v, 0) + BitAt(v, 1) + BitAt(v, 2) + BitAt(v, 3) + BitAt(v, 4) + BitAt(v, 5) + BitAt(v, 6) + BitAt(v, 7)
  }

  function OnesBits(v: bv8): bv8 {
    (v & 1) + ((v >> 1) & 1) + ((v >> 2) & 1) + ((v >> 3) & 1) +
    ((v >> 4) & 1) + ((v >> 5) & 1) + ((v >> 6) & 1) + ((v >> 7) & 1)
  }

  lemma OnesBitsValue(v: bv8)
    ensures OnesBits(v) as nat == Ones(v) && OnesBits(v) <= 8
  {
  }

  // Clearing the lowest set bit, once per round.
  method PopCount8(value: bv8) returns (count: nat)
    ensures count == Ones(value)
  {
    var v := value;
    count := 0;
    while v != 0
      invariant count + Ones(v) == Ones(value)
      decreases v
    {
      ClearLowest(v);
      v := v & (v - 1);
      count := count + 1;
    }
  }

  lemma ClearLowestBits(v: bv8)
    requires v != 0
    ensures v & (v - 1) < v && OnesBits(v & (v - 1)) + 1 == OnesBits(v)
  {
  }

  lemma ClearLowest(v: bv8)
    requires v != 0
    ensures v & (v - 1) < v && Ones(v & (v - 1)) + 1 == Ones(v)
  {
    ClearLowestBits(v);
    OnesBitsValue(v);
    OnesBitsValue(v & (v - 1));
    Successor(OnesBits(v & (v - 1)), OnesBits(v));
  }

  lemma Successor(a: bv8, b: bv8)
    requires a <= 8 && a + 1 == b
    ensures a as nat + 1 == b as nat
  {
  }

  // ---------- the word-parallel count ----------

  function Word(b0: bv8, b1: bv8, b2: bv8, b3: bv8): bv32 {
    b0 as bv32 | (b1 as bv32 << 8) | (b2 as bv32 << 16) | (b3 as bv32 << 24)
  }

  function EvenBits(v: bv32): bv32 { v & 0x5555_5555 }
  function OddBits(v: bv32): bv32 { (v >> 1) & 0x5555_5555 }
  function Minus(v: bv32, w: bv32): bv32 { v - w }
  function CountPairs(v: bv32): bv32 { Minus(v, OddBits(v)) }
  function CountNibbles(v: bv32): bv32 { (v & 0x3333_3333) + ((v >> 2) & 0x3333_3333) }
  function CountBytes(v: bv32): bv32 { (v + (v >> 4)) & 0x0f0f_0f0f }
  function Gather(v: bv32): bv32 {
    var w := v + (v >> 8);
    (w + (w >> 16)) & 0x3f
  }

  function PopCount32(v: bv32): bv32 { Gather(CountBytes(CountNibbles(CountPairs(v)))) }

  // The same steps on one byte.
  function Pairs(v: bv8): bv8 { (v & 0x55) + ((v >> 1) & 0x55) }
  function Nibbles(v: bv8): bv8 { (v & 0x33) + ((v >> 2) & 0x33) }
  function Total(v: bv8): bv8 { (v + (v >> 4)) & 0x0f }

  predicate SmallFields(v: bv8) { v & 0x0f <= 4 && v >> 4 <= 4 }

  function PairSums(v: bv32): bv32 { EvenBits(v) + OddBits(v) }

  lemma SplitPairs(v: bv32, even: bv32, odd: bv32)
    requires even == EvenBits(v) && odd == OddBits(v)
    ensures v == even + (odd + odd) && even & 0x5555_5555 == even && odd & 0x5555_5555 == odd
  {
  }

  lemma BorrowFree(v: bv32, even: bv32, odd: bv32)
    requires v == even + (odd + odd) && even & 0x5555_5555 == even && odd & 0x5555_5555 == odd
    ensures Minus(v, odd) == even + odd
  {
  }

  lemma DifferenceIsSum(v: bv32, even: bv32, odd: bv32)
    requires even == EvenBits(v) && odd == OddBits(v)
    ensures Minus(v, odd) == even + odd
  {
    SplitPairs(v, even, odd);
    BorrowFree(v, even, odd);
  }

  lemma CountPairsIsSum(v: bv32)
    ensures CountPairs(v) == PairSums(v)
  {
    DifferenceIsSum(v, EvenBits(v), OddBits(v));
  }

  lemma PairsByBytes(b0: bv8, b1: bv8, b2: bv8, b3: bv8)
    ensures PairSums(Word(b0, b1, b2, b3)) == Word(Pairs(b0), Pairs(b1), Pairs(b2), Pairs(b3))
  {
  }

  lemma CountPairsByBytes(b0: bv8, b1: bv8, b2: bv8, b3: bv8)
    ensures CountPairs(Word(b0, b1, b2, b3)) == Word(Pairs(b0), Pairs(b1), Pairs(b2), Pairs(b3))
  {
    CountPairsIsSum(Word(b0, b1, b2, b3));
    PairsByBytes(b0, b1, b2, b3);
  }

  lemma CountNibblesByBytes(b0: bv8, b1: bv8, b2: bv8, b3: bv8)
    ensures CountNibbles(Word(b0, b1, b2, b3)) == Word(Nibbles(b0), Nibbles(b1), Nibbles(b2), Nibbles(b3))
  {
  }

  lemma CountBytesByBytes(b0: bv8, b1: bv8, b2: bv8, b3: bv8)
    requires SmallFields(b0) && SmallFields(b1) && SmallFields(b2) && SmallFields(b3)
    ensures CountBytes(Word(b0, b1, b2, b3)) == Word(Total(b0), Total(b1), Total(b2), Total(b3))
  {
  }

  function Plus(a: bv8, b: bv8): bv8 { a + b }

  lemma GatherBytes(b0: bv8, b1: bv8, b2: bv8, b3: bv8)
    requires b0 <= 8 && b1 <= 8 && b2 <= 8 && b3 <= 8
    ensures Gather(Word(b0, b1, b2, b3)) == Plus(Plus(b0, b1), Plus(b2, b3)) as bv32
  {
  }

  lemma ByteTotal(b: bv8)
    ensures Total(Nibbles(Pairs(b))) == OnesBits(b) <= 8 && SmallFields(Nibbles(Pairs(b)))
  {
  }

  lemma SumOfTwo(a: bv8, b: bv8)
    requires a <= 16 && b <= 16
    ensures Plus(a, b) as nat == a as nat + b as nat
  {
  }

  lemma SmallSum(a: bv8, b: bv8)
    requires a <= 8 && b <= 8
    ensures Plus(a, b) <= 16
  {
  }

  lemma Widen(a: bv8)
    ensures (a as bv32) as nat == a as nat
  {
  }

  lemma SumOfFour(a: bv8, b: bv8, c: bv8, d: bv8)
    requires a <= 8 && b <= 8 && c <= 8 && d <= 8
    ensures (Plus(Plus(a, b), Plus(c, d)) as bv32) as nat == a as nat + b as nat + c as nat + d as nat
  {
    SmallSum(a, b);
    SmallSum(c, d);
    SumOfTwo(a, b);
    SumOfTwo(c, d);
    SumOfTwo(Plus(a, b), Plus(c, d));
    Widen(Plus(Plus(a, b), Plus(c, d)));
  }

  lemma CountedBytes(b0: bv8, b1: bv8, b2: bv8, b3: bv8)
    ensures CountBytes(CountNibbles(CountPairs(Word(b0, b1, b2, b3))))
         == Word(OnesBits(b0), OnesBits(b1), OnesBits(b2), OnesBits(b3))
  {
    ByteTotal(b0); ByteTotal(b1); ByteTotal(b2); ByteTotal(b3);
    CountPairsByBytes(b0, b1, b2, b3);
    CountNibblesByBytes(Pairs(b0), Pairs(b1), Pairs(b2), Pairs(b3));
    CountBytesByBytes(Nibbles(Pairs(b0)), Nibbles(Pairs(b1)), Nibbles(Pairs(b2)), Nibbles(Pairs(b3)));
  }

  // The word-parallel steps count the set bits of the word's four bytes.
  lemma PopCount32IsOnes(b0: bv8, b1: bv8, b2: bv8, b3: bv8)
    ensures PopCount32(Word(b0, b1, b2, b3)) as nat == Ones(b0) + Ones(b1) + Ones(b2) + Ones(b3)
  {
    CountedBytes(b0, b1, b2, b3);
    OnesBitsValue(b0); OnesBitsValue(b1); OnesBitsValue(b2); OnesBitsValue(b3);
    GatheredValue(OnesBits(b0), OnesBits(b1), OnesBits(b2), OnesBits(b3));
  }

  lemma GatheredValue(a: bv8, b: bv8, c: bv8, d: bv8)
    requires a <= 8 && b <= 8 && c <= 8 && d <= 8
    ensures Gather(Word(a, b, c, d)) as nat == a as nat + b as nat + c as nat + d as nat
  {
    GatherBytes(a, b, c, d);
    SumOfFour(a, b, c, d);
  }

  // ---------- descriptor distance ----------

  type BitDistance = (bv8, bv8) -> nat

  // Sum of a distance over the positions of two equally long byte strings.
  function Distance(f: BitDistance, left: Bytes, right: Bytes): nat
    requires |left| == |right|
  {
    if left == [] then 0
    else
      var n := |left| - 1;
      Distance(f, left[..n], right[..n]) + f(left[n], right[n])
  }

  function Differing(a: bv8, b: bv8): nat { Ones(a ^ b) }

  // Number of differing bits.
  function Hamming(left: Bytes, right: Bytes): nat
    requires |left| == |right|
  {
    Distance(Differing, left, right)
  }

  function LoadWord(d: Bytes, offset: nat): bv32
    requires offset + 4 <= |d|
  {
    Word(d[offset], d[offset + 1], d[offset + 2], d[offset + 3])
  }

  lemma XorByBytes(a0: bv8, a1: bv8, a2: bv8, a3: bv8, b0: bv8, b1: bv8, b2: bv8, b3: bv8)
    ensures Word(a0, a1, a2, a3) ^ Word(b0, b1, b2, b3) == Word(a0 ^ b0, a1 ^ b1, a2 ^ b2, a3 ^ b3)
  {
  }

  lemma WordDistance(a0: bv8, a1: bv8, a2: bv8, a3: bv8, b0: bv8, b1: bv8, b2: bv8, b3: bv8)
    ensures PopCount32(Word(a0, a1, a2, a3) ^ Word(b0, b1, b2, b3)) as nat
         == Differing(a0, b0) + Differing(a1, b1) + Differing(a2, b2) + Differing(a3, b3)
  {
    XorByBytes(a0, a1, a2, a3, b0, b1, b2, b3);
    PopCount32IsOnes(a0 ^ b0, a1 ^ b1, a2 ^ b2, a3 ^ b3);
  }

  lemma DistanceNext(f: BitDistance, left: Bytes, right: Bytes, i: nat)
    requires i < |left| && |left| == |right|
    ensures Distance(f, left[..i + 1], right[..i + 1]) == Distance(f, left[..i], right[..i]) + f(left[i], right[i])
  {
    assert left[..i + 1][..i] == left[..i] && right[..i + 1][..i] == right[..i];
  }

  lemma DistanceFour(f: BitDistance, left: Bytes, right: Bytes, i: nat)
    requires i + 4 <= |left| && |left| == |right|
    ensures Distance(f, left[..i + 4], right[..i + 4]) == Distance(f, left[..i], right[..i])
              + f(left[i], right[i]) + f(left[i + 1], right[i + 1]) + f(left[i + 2], right[i + 2])
                + f(left[i + 3], right[i + 3])
  {
    DistanceNext(f, left, right, i);
    DistanceNext(f, left, right, i + 1);
    DistanceNext(f, left, right, i + 2);
    DistanceNext(f, left, right, i + 3);
  }

  method CountWord(left: Bytes, right: Bytes, offset: nat) returns (n: nat)
    requires |left| == |right| && offset + 4 <= |left|
    ensures Hamming(left[..offset + 4], right[..offset + 4]) == Hamming(left[..offset], right[..offset]) + n
  {
    DistanceFour(Differing, left, right, offset);
    WordDistance(left[offset], left[offset + 1], left[offset + 2], left[offset + 3],
                 right[offset], right[offset + 1], right[offset + 2], right[offset + 3]);
    n := PopCount32(LoadWord(left, offset) ^ LoadWord(right, offset)) as nat;
  }

  // The distance loop of the matcher, a word at a time.
  method DescriptorHamming(left: Bytes, right: Bytes) returns (distance: nat)
    requires |left| == |right| == DESCRIPTOR_BYTES
    ensures distance == Hamming(left, right)
  {
    distance := 0;
    var offset := 0;
    while offset + 4 <= DESCRIPTOR_BYTES
      invariant offset <= DESCRIPTOR_BYTES && offset % 4 == 0
      invariant distance == Hamming(left[..offset], right[..offset])
    {
      var n := CountWord(left, right, offset);
      distance := distance + n;
      offset := offset + 4;
    }
    assert left[..offset] == left && right[..offset] == right;
  }

  lemma XorZero(a: bv8, b: bv8)
    ensures a ^ b == b ^ a
    ensures a == b <==> a ^ b == 0
  {
  }

  lemma OnesZero(v: bv8)
    ensures Ones(v) <= 8
    ensures Ones(v) == 0 <==> v == 0
  {
  }

  // What makes a distance of bytes one of byte strings.
  ghost predicate ByteMetric(f: BitDistance) {
    forall a, b :: f(a, b) <= 8 && f(a, b) == f(b, a) && (f(a, b) == 0 <==> a == b)
  }

  lemma DifferingIsMetric()
    ensures ByteMetric(Differing)
  {
    forall a: bv8, b: bv8
      ensures Differing(a, b) <= 8 && Differing(a, b) == Differing(b, a) && (Differing(a, b) == 0 <==> a == b)
    {
      XorZero(a, b);
      OnesZero(a ^ b);
    }
  }

  lemma {:induction false} DistanceIsMetric(f: BitDistance, left: Bytes, right: Bytes)
    requires |left| == |right| && ByteMetric(f)
    ensures Distance(f, left, right) <= 8 * |left|
    ensures Distance(f, left, right) == Distance(f, right, left)
    ensures Distance(f, left, right) == 0 <==> left == right
    decreases |left|
  {
    if left != [] {
      var n := |left| - 1;
      DistanceIsMetric(f, left[..n], right[..n]);
      var a, b := left[n], right[n];
      assert f(a, b) <= 8 && f(a, b) == f(b, a) && (f(a, b) == 0 <==> a == b);
      assert left == left[..n] + [left[n]] && right == right[..n] + [right[n]];
    }
  }

  // Distance is symmetric, bounded, and zero exactly for equal descriptors.
  lemma HammingIsMetric(left: Bytes, right: Bytes)
    requires |left| == |right|
    ensures Hamming(left, right) <= 8 * |left|
    ensures Hamming(left, right) == Hamming(right, left)
    ensures Hamming(left, right) == 0 <==> left == right
  {
    DifferingIsMetric();
    DistanceIsMetric(Differing, left, right);
  }
}
