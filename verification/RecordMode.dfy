// The final mode pass over a 60-byte feature record, and why an enrolled and an
// identified record are exactly as far apart as the raw ones.
module RecordMode {
  import opened Sizes
  import opened Descriptor

  const AT: nat := 0x10

  // High nibble of one byte, low nibble of another.
  function Mix(high: bv8, low: bv8): bv8 { (high & 0xf0) | (low & 0x0f) }

  // Which half of the output takes the right byte's high nibble, per pair.
  const SWAPPED: seq<bool> := [false, true, true, false, true, false, false, true]

  // Pair i is swapped exactly when i has an odd number of set bits.
  lemma SwappedByParity(i: nat)
    requires i < 8
    ensures SWAPPED[i] <==> (i % 2 + i / 2 % 2 + i / 4) % 2 == 1
  {
  }

  // The pass is the same for any way g of mixing two bytes.
  type Mixer = (bv8, bv8) -> bv8

  function First(g: Mixer, left: bv8, right: bv8, swapped: bool): bv8 {
    if swapped then g(left, right) else g(right, left)
  }

  // The matched part of a descriptor after either mode pass.
  function Normalized(g: Mixer, d: Bytes): (n: Bytes)
    requires |d| == DESCRIPTOR_BYTES
    ensures |n| == DESCRIPTOR_BYTES
  {
    seq(8, i requires 0 <= i < 8 => First(g, d[2 * i], d[2 * i + 1], SWAPPED[i])) +
    seq(8, i requires 0 <= i < 8 => First(g, d[2 * i], d[2 * i + 1], !SWAPPED[i])) +
    d[16..]
  }

  // Neighbouring bits, pairs, nibbles, bytes and halves change places.
  function SwapBits(v: bv32): bv32 { ((v & 0x5555_5555) << 1) | ((v >> 1) & 0x5555_5555) }
  function SwapPairs(v: bv32): bv32 { ((v & 0x3333_3333) << 2) | ((v >> 2) & 0x3333_3333) }
  function SwapNibbles(v: bv32): bv32 { ((v & 0x0f0f_0f0f) << 4) | ((v >> 4) & 0x0f0f_0f0f) }
  function SwapBytes(v: bv32): bv32 { ((v & 0x00ff_00ff) << 8) | ((v >> 8) & 0x00ff_00ff) }
  function SwapHalves(v: bv32): bv32 { (v << 16) | (v >> 16) }

  function BitReverse32(v: bv32): bv32 { SwapHalves(SwapBytes(SwapNibbles(SwapPairs(SwapBits(v))))) }

  function BitOf(v: bv32, i: bv32): bv32
    requires i < 32
  {
    (v >> i) & 1
  }

  lemma SwapBitsMoves(v: bv32, i: bv32)
    requires i < 32
    ensures i ^ 1 < 32 && BitOf(SwapBits(v), i) == BitOf(v, i ^ 1)
  {
  }

  lemma SwapPairsMoves(v: bv32, i: bv32)
    requires i < 32
    ensures i ^ 2 < 32 && BitOf(SwapPairs(v), i) == BitOf(v, i ^ 2)
  {
  }

  lemma SwapNibblesMoves(v: bv32, i: bv32)
    requires i < 32
    ensures i ^ 4 < 32 && BitOf(SwapNibbles(v), i) == BitOf(v, i ^ 4)
  {
  }

  lemma SwapBytesMoves(v: bv32, i: bv32)
    requires i < 32
    ensures i ^ 8 < 32 && BitOf(SwapBytes(v), i) == BitOf(v, i ^ 8)
  {
  }

  lemma SwapHalvesMoves(v: bv32, i: bv32)
    requires i < 32
    ensures i ^ 16 < 32 && BitOf(SwapHalves(v), i) == BitOf(v, i ^ 16)
  {
  }

  lemma FiveMoves(i: bv32)
    requires i < 32
    ensures i ^ 16 < 32 && i ^ 16 ^ 8 < 32 && i ^ 16 ^ 8 ^ 4 < 32 && i ^ 16 ^ 8 ^ 4 ^ 2 < 32
    ensures i ^ 16 ^ 8 ^ 4 ^ 2 ^ 1 == 31 - i
  {
  }

  // Bit i of the result is bit 31 - i of the word.
  lemma BitReverseMirrors(v: bv32, i: bv32)
    requires i < 32
    ensures BitOf(BitReverse32(v), i) == BitOf(v, 31 - i)
  {
    var a := SwapBits(v);
    var b := SwapPairs(a);
    var c := SwapNibbles(b);
    var d := SwapBytes(c);
    FiveMoves(i);
    SwapHalvesMoves(d, i);
    SwapBytesMoves(c, i ^ 16);
    SwapNibblesMoves(b, i ^ 16 ^ 8);
    SwapPairsMoves(a, i ^ 16 ^ 8 ^ 4);
    SwapBitsMoves(v, i ^ 16 ^ 8 ^ 4 ^ 2);
  }

  lemma BitReverseTwice(v: bv32)
    ensures BitReverse32(BitReverse32(v)) == v
  {
  }

  function ByteOf(w: bv32, k: bv32): bv8
    requires k < 4
  {
    ((w >> (8 * k)) & 0xff) as bv8
  }

  // ---------- distances survive the pass ----------

  function LowOnes(v: bv8): nat { BitAt(v, 0) + BitAt(v, 1) + BitAt(v, 2) + BitAt(v, 3) }
  function HighOnes(v: bv8): nat { BitAt(v, 4) + BitAt(v, 5) + BitAt(v, 6) + BitAt(v, 7) }

  lemma OnesOfMix(high: bv8, low: bv8)
    ensures LowOnes(Mix(high, low)) == LowOnes(low) && HighOnes(Mix(high, low)) == HighOnes(high)
  {
  }

  lemma OnesSplit(v: bv8)
    ensures Ones(v) == LowOnes(v) + HighOnes(v)
  {
  }

  lemma MixOfXor(a: bv8, b: bv8, c: bv8, d: bv8)
    ensures Mix(a, b) ^ Mix(c, d) == Mix(a ^ c, b ^ d)
  {
  }

  // Exchanging nibbles between two bytes moves differing bits around.
  lemma MixKeepsDiffering(l: bv8, r: bv8, l': bv8, r': bv8)
    ensures Differing(Mix(r, l), Mix(r', l')) + Differing(Mix(l, r), Mix(l', r')) == Differing(l, l') + Differing(r, r')
  {
    MixOfXor(r, l, r', l');
    MixOfXor(l, r, l', r');
    OnesOfMix(r ^ r', l ^ l');
    OnesOfMix(l ^ l', r ^ r');
    OnesSplit(Mix(r ^ r', l ^ l'));
    OnesSplit(Mix(l ^ l', r ^ r'));
    OnesSplit(l ^ l');
    OnesSplit(r ^ r');
  }

  ghost predicate PairLaw(f: BitDistance, g: Mixer) {
    forall l, r, l', r', swapped ::
      f(First(g, l, r, swapped), First(g, l', r', swapped)) + f(First(g, l, r, !swapped), First(g, l', r', !swapped))
      == f(l, l') + f(r, r')
  }

  lemma DifferingObeysPairLaw()
    ensures PairLaw(Differing, Mix)
  {
    forall l: bv8, r: bv8, l': bv8, r': bv8, swapped: bool
      ensures Differing(First(Mix, l, r, swapped), First(Mix, l', r', swapped))
              + Differing(First(Mix, l, r, !swapped), First(Mix, l', r', !swapped))
           == Differing(l, l') + Differing(r, r')
    {
      MixKeepsDiffering(l, r, l', r');
    }
  }

  // Two halves built from pairs, against the bytes they were built from.
  ghost predicate PairsKept(f: BitDistance, a: Bytes, b: Bytes, d: Bytes, a': Bytes, b': Bytes, d': Bytes)
    requires |a| == |b| == |a'| == |b'| == 8 && |d| == |d'| == DESCRIPTOR_BYTES
  {
    forall i :: 0 <= i < 8 ==>
        f(a[i], a'[i]) + f(b[i], b'[i]) == f(d[2 * i], d'[2 * i]) + f(d[2 * i + 1], d'[2 * i + 1])
  }

  lemma HalvesDistance(f: BitDistance, a: Bytes, b: Bytes, d: Bytes, a': Bytes, b': Bytes, d': Bytes, k: nat)
    requires |a| == |b| == |a'| == |b'| == 8 && |d| == |d'| == DESCRIPTOR_BYTES && k <= 8
    requires PairsKept(f, a, b, d, a', b', d')
    ensures Distance(f, a[..k], a'[..k]) + Distance(f, b[..k], b'[..k]) == Distance(f, d[..2 * k], d'[..2 * k])
    decreases k
  {
    if k > 0 {
      HalvesDistance(f, a, b, d, a', b', d', k - 1);
      DistanceNext(f, a, a', k - 1);
      DistanceNext(f, b, b', k - 1);
      TwoMore(f, d, d', 2 * (k - 1));
    }
  }

  lemma TwoMore(f: BitDistance, d: Bytes, e: Bytes, i: nat)
    requires i + 2 <= |d| == |e|
    ensures Distance(f, d[..i + 2], e[..i + 2]) == Distance(f, d[..i], e[..i]) + f(d[i], e[i]) + f(d[i + 1], e[i + 1])
  {
    DistanceNext(f, d, e, i);
    DistanceNext(f, d, e, i + 1);
  }

  // What the pass puts into the two halves.
  lemma NormalizedAt(g: Mixer, d: Bytes, i: nat)
    requires |d| == DESCRIPTOR_BYTES && i < 8
    ensures Normalized(g, d)[i] == First(g, d[2 * i], d[2 * i + 1], SWAPPED[i])
    ensures Normalized(g, d)[8 + i] == First(g, d[2 * i], d[2 * i + 1], !SWAPPED[i])
  {
  }

  lemma NormalizedPairs(f: BitDistance, g: Mixer, d: Bytes, e: Bytes)
    requires |d| == |e| == DESCRIPTOR_BYTES && PairLaw(f, g)
    ensures var n, m := Normalized(g, d), Normalized(g, e);
            PairsKept(f, n[..8], n[8..16], d, m[..8], m[8..16], e)
  {
    var n, m := Normalized(g, d), Normalized(g, e);
    forall i | 0 <= i < 8
      ensures f(n[..8][i], m[..8][i]) + f(n[8..16][i], m[8..16][i])
           == f(d[2 * i], e[2 * i]) + f(d[2 * i + 1], e[2 * i + 1])
    {
      NormalizedAt(g, d, i);
      NormalizedAt(g, e, i);
      LawAt(f, g, d[2 * i], d[2 * i + 1], e[2 * i], e[2 * i + 1], SWAPPED[i]);
    }
  }

  lemma LawAt(f: BitDistance, g: Mixer, l: bv8, r: bv8, l': bv8, r': bv8, swapped: bool)
    requires PairLaw(f, g)
    ensures f(First(g, l, r, swapped), First(g, l', r', swapped))
            + f(First(g, l, r, !swapped), First(g, l', r', !swapped))
         == f(l, l') + f(r, r')
  {
  }

  lemma {:induction false} DistanceAppend(f: BitDistance, a: Bytes, b: Bytes, a': Bytes, b': Bytes)
    requires |a| == |a'| && |b| == |b'|
    ensures Distance(f, a + b, a' + b') == Distance(f, a, a') + Distance(f, b, b')
    decreases |b|
  {
    if b == [] {
      assert a + b == a && a' + b' == a';
    } else {
      var n := |b| - 1;
      DistanceAppend(f, a, b[..n], a', b'[..n]);
      assert (a + b)[..|a| + n] == a + b[..n] && (a' + b')[..|a| + n] == a' + b'[..n];
    }
  }

  lemma {:induction false} NormalizedDistance(f: BitDistance, g: Mixer, d: Bytes, e: Bytes)
    requires |d| == |e| == DESCRIPTOR_BYTES && PairLaw(f, g)
    ensures Distance(f, Normalized(g, d), Normalized(g, e)) == Distance(f, d, e)
  {
    var n, m := Normalized(g, d), Normalized(g, e);
    NormalizedPairs(f, g, d, e);
    HalvesDistance(f, n[..8], n[8..16], d, m[..8], m[8..16], e, 8);
    assert n[..8][..8] == n[..8] && m[..8][..8] == m[..8] && n[8..16][..8] == n[8..16] && m[8..16][..8] == m[8..16];
    DistanceAppend(f, n[..8], n[8..16], m[..8], m[8..16]);
    DistanceAppend(f, n[..8] + n[8..16], d[16..], m[..8] + m[8..16], e[16..]);
    DistanceAppend(f, d[..16], d[16..], e[..16], e[16..]);
    assert n == n[..8] + n[8..16] + d[16..] && m == m[..8] + m[8..16] + e[16..];
    assert d == d[..16] + d[16..] && e == e[..16] + e[16..];
  }

  // ---------- the pass itself ----------

  // Four bytes after the matched part: the reversed word, or nothing.
  function Tail(r: Bytes, identify: bool): (t: Bytes)
    requires |r| == RECORD_BYTES
    ensures |t| == 4
  {
    if !identify then [0, 0, 0, 0]
    else
      var w := BitReverse32(Word(r[0x20], r[0x21], r[0x22], r[0x23]));
      [ByteOf(w, 0), ByteOf(w, 1), ByteOf(w, 2), ByteOf(w, 3)]
  }

  // The second descriptor area, rearranged for identification only.
  function Second(r: Bytes, identify: bool): (t: Bytes)
    requires |r| == RECORD_BYTES
    ensures |t| == 8
  {
    if !identify then r[0x30..0x38]
    else [r[0x28], !r[0x29], !r[0x2a], r[0x2b], r[0x2f], r[0x2e], r[0x2d], r[0x2c]]
  }

  function Moded(r: Bytes, identify: bool): (m: Bytes)
    requires |r| == RECORD_BYTES
    ensures |m| == RECORD_BYTES
  {
    r[..AT] + Normalized(Mix, r[AT..AT + DESCRIPTOR_BYTES]) + Tail(r, identify) + r[0x28..0x30] + Second(r, identify)
      + r[0x38..]
  }

  function Matched(r: Bytes): (d: Bytes)
    requires |r| == RECORD_BYTES
    ensures |d| == DESCRIPTOR_BYTES
  {
    r[AT..AT + DESCRIPTOR_BYTES]
  }

  // Whichever mode either record went through, the matcher sees the distance
  // of the raw descriptors.
  lemma ModeKeepsDistance(a: Bytes, b: Bytes, modeA: bool, modeB: bool)
    requires |a| == |b| == RECORD_BYTES
    ensures Hamming(Matched(Moded(a, modeA)), Matched(Moded(b, modeB))) == Hamming(Matched(a), Matched(b))
  {
    assert Matched(Moded(a, modeA)) == Normalized(Mix, Matched(a));
    assert Matched(Moded(b, modeB)) == Normalized(Mix, Matched(b));
    DifferingObeysPairLaw();
    NormalizedDistance(Differing, Mix, Matched(a), Matched(b));
  }

  method PutPair(g: Mixer, left: bv8, right: bv8, pair: nat, normalized: array<bv8>)
    requires pair < 8 && normalized.Length == 24
    modifies normalized
    ensures normalized[pair] == First(g, left, right, SWAPPED[pair])
    ensures normalized[8 + pair] == First(g, left, right, !SWAPPED[pair])
    ensures forall i :: 0 <= i < 24 && i != pair && i != 8 + pair ==> normalized[i] == old(normalized[i])
  {
    var rightHighLeftLow, leftHighRightLow := g(right, left), g(left, right);
    if !SWAPPED[pair] {
      normalized[pair] := rightHighLeftLow;
      normalized[8 + pair] := leftHighRightLow;
    } else {
      normalized[pair] := leftHighRightLow;
      normalized[8 + pair] := rightHighLeftLow;
    }
  }

  // All pairs, then the word that follows them.
  method NormalizePairs(g: Mixer, record: array<bv8>, normalized: array<bv8>, ghost n: Bytes)
    requires record.Length == RECORD_BYTES && normalized.Length == 24 && record != normalized
    requires n == Normalized(g, record[AT..AT + DESCRIPTOR_BYTES])
    modifies normalized
    ensures forall i :: 0 <= i < 16 ==> normalized[i] == n[i]
    ensures forall i :: 16 <= i < 24 ==> normalized[i] == old(normalized[i])
  {
    ghost var d := record[AT..AT + DESCRIPTOR_BYTES];
    for pair := 0 to 8
      invariant record[AT..AT + DESCRIPTOR_BYTES] == d
      invariant forall i :: 0 <= i < pair || 8 <= i < 8 + pair ==> normalized[i] == n[i]
      invariant forall i :: 16 <= i < 24 ==> normalized[i] == old(normalized[i])
    {
      NormalizedAt(g, d, pair);
      assert d[2 * pair] == record[AT + pair * 2] && d[2 * pair + 1] == record[AT + pair * 2 + 1];
      PutPair(g, record[AT + pair * 2], record[AT + pair * 2 + 1], pair, normalized);
    }
  }

  method WriteTail(record: array<bv8>, normalized: array<bv8>)
    requires record.Length == RECORD_BYTES && normalized.Length == 24 && record != normalized
    modifies normalized
    ensures normalized[20..] == Tail(record[..], true) && normalized[..20] == old(normalized[..20])
  {
    var reversed := BitReverse32(Word(record[0x20], record[0x21], record[0x22], record[0x23]));
    normalized[20], normalized[21] := ByteOf(reversed, 0), ByteOf(reversed, 1);
    normalized[22], normalized[23] := ByteOf(reversed, 2), ByteOf(reversed, 3);
  }

  // The first 24 bytes of the pass, before the reversed word is written.
  method BuildMatched(g: Mixer, record: array<bv8>) returns (normalized: array<bv8>)
    requires record.Length == RECORD_BYTES
    ensures fresh(normalized) && normalized.Length == 24
    ensures normalized[..20] == Normalized(g, record[AT..AT + DESCRIPTOR_BYTES])
    ensures normalized[20..] == [0, 0, 0, 0]
  {
    normalized := new bv8[24](_ => 0);
    ghost var n := Normalized(g, record[AT..AT + DESCRIPTOR_BYTES]);
    NormalizePairs(g, record, normalized, n);
    NormalizedWord(g, record[AT..AT + DESCRIPTOR_BYTES]);
    CopyWord(record, normalized, n);
    assert normalized[..20] == n;
  }

  lemma NormalizedWord(g: Mixer, d: Bytes)
    requires |d| == DESCRIPTOR_BYTES
    ensures Normalized(g, d)[16..] == d[16..]
  {
  }

  method CopyWord(record: array<bv8>, normalized: array<bv8>, ghost n: Bytes)
    requires record.Length == RECORD_BYTES && normalized.Length == 24 && record != normalized
    requires |n| == DESCRIPTOR_BYTES && n[16..] == record[AT..AT + DESCRIPTOR_BYTES][16..]
    modifies normalized
    ensures forall i :: 0 <= i < 24 ==> normalized[i] == if 16 <= i < 20 then n[i] else old(normalized[i])
  {
    forall k | 0 <= k < 4 { normalized[16 + k] := record[0x20 + k]; }
    assert forall i | 16 <= i < 20 :: n[i] == n[16..][i - 16] == record[0x10 + i];
  }

  // The local buffer that replaces record bytes 0x10 to 0x27.
  method BuildNormalized(record: array<bv8>, identify: bool) returns (normalized: array<bv8>)
    requires record.Length == RECORD_BYTES
    ensures fresh(normalized) && normalized.Length == 24
    ensures normalized[..] == Normalized(Mix, record[AT..AT + DESCRIPTOR_BYTES]) + Tail(record[..], identify)
  {
    normalized := BuildMatched(Mix, record);
    if identify {
      WriteTail(record, normalized);
    }
    assert normalized[..] == normalized[..20] + normalized[20..];
  }

  method RearrangeSecond(record: array<bv8>)
    requires record.Length == RECORD_BYTES
    modifies record
    ensures record[0x30] == old(record[0x28]) && record[0x31] == !old(record[0x29])
    ensures record[0x32] == !old(record[0x2a]) && record[0x33] == old(record[0x2b])
    ensures record[0x34] == old(record[0x2f]) && record[0x35] == old(record[0x2e])
    ensures record[0x36] == old(record[0x2d]) && record[0x37] == old(record[0x2c])
    ensures record[..0x30] == old(record[..0x30]) && record[0x38..] == old(record[0x38..])
  {
    record[0x30] := record[0x28];
    record[0x31] := !record[0x29];
    record[0x32] := !record[0x2a];
    record[0x33] := record[0x2b];
    record[0x34] := record[0x2f];
    record[0x35] := record[0x2e];
    record[0x36] := record[0x2d];
    record[0x37] := record[0x2c];
  }

  method StoreFirst(record: array<bv8>, normalized: array<bv8>)
    requires record.Length == RECORD_BYTES && normalized.Length == 24 && record != normalized
    modifies record
    ensures record[..0x28] == old(record[..AT]) + old(normalized[..])
    ensures record[0x28..] == old(record[0x28..])
  {
    forall k | 0 <= k < 24 { record[AT + k] := normalized[k]; }
  }

  method ApplyMode(record: array<bv8>, identify: bool)
    requires record.Length == RECORD_BYTES
    modifies record
    ensures record[..] == Moded(old(record[..]), identify)
  {
    ghost var r := record[..];
    var normalized := BuildNormalized(record, identify);
    StoreFirst(record, normalized);
    SecondReads(r, record[..], identify);
    if identify {
      RearrangeSecond(record);
    }
    JoinRecord(r, record[..], identify);
  }

  lemma SecondReads(r: Bytes, m: Bytes, identify: bool)
    requires |r| == |m| == RECORD_BYTES && m[0x28..] == r[0x28..]
    ensures Second(m, identify) == Second(r, identify)
    ensures m[0x28..0x30] == r[0x28..0x30] && m[0x30..0x38] == r[0x30..0x38] && m[0x38..] == r[0x38..]
  {
    assert forall k | 0x28 <= k < RECORD_BYTES :: m[k] == m[0x28..][k - 0x28] == r[0x28..][k - 0x28] == r[k];
  }

  lemma JoinRecord(r: Bytes, m: Bytes, identify: bool)
    requires |r| == |m| == RECORD_BYTES
    requires m[..0x28] == r[..AT] + (Normalized(Mix, r[AT..AT + DESCRIPTOR_BYTES]) + Tail(r, identify))
    requires m[0x28..0x30] == r[0x28..0x30] && m[0x30..0x38] == Second(r, identify) && m[0x38..] == r[0x38..]
    ensures m == Moded(r, identify)
  {
    assert m == m[..0x28] + m[0x28..0x30] + m[0x30..0x38] + m[0x38..];
  }

  // Nothing of the matched bytes is lost: records that agree after the pass, in
  // whatever modes, agreed before it.
  lemma ModeLosesNothing(a: Bytes, b: Bytes, modeA: bool, modeB: bool)
    requires |a| == |b| == RECORD_BYTES
    ensures Matched(Moded(a, modeA)) == Matched(Moded(b, modeB)) <==> Matched(a) == Matched(b)
  {
    ModeKeepsDistance(a, b, modeA, modeB);
    HammingIsMetric(Matched(Moded(a, modeA)), Matched(Moded(b, modeB)));
    HammingIsMetric(Matched(a), Matched(b));
  }
}
