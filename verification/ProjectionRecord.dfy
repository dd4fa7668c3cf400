// The bits of the projection packed into words and stored in the record.
module ProjectionRecord {
  import opened Words
  import opened Sizes
  import opened Arithmetic
  import SquareRoot
  import opened Hadamard
  import opened Projection
  import opened LittleEndian

  const AT: nat := 0x10

  function Word(bits: seq<bool>): (w: nat)
    ensures w < Pow2(|bits|)
  {
    if bits == [] then 0
    else
      var n := |bits| - 1;
      Word(bits[..n]) + if bits[n] then Pow2(n) else 0
  }

  lemma Distribute(a: nat, b: nat, p: nat)
    ensures (a + b) * p == a * p + b * p
  {
  }

  lemma HighBitKeeps(low: nat, high: nat, p: nat, h: nat)
    requires p > 0 && high == 2 * h * p
    ensures (low + high) / p % 2 == low / p % 2
  {
    var q := low / p;
    assert low == p * q + low % p;
    Distribute(q, 2 * h, p);
    QuotientIs(low + high, p, q + 2 * h, low % p);
  }

  lemma PowerApart(n: nat, i: nat) returns (h: nat)
    requires i < n
    ensures Pow2(n) == 2 * h * Pow2(i)
  {
    h := Pow2(n - i - 1);
    PowOfSum(n - i - 1, i + 1);
    assert Pow2(i + 1) == 2 * Pow2(i);
    assert h * (2 * Pow2(i)) == 2 * h * Pow2(i);
  }

  // Each bit can be read back from the word.
  lemma {:induction false} BitOfWord(bits: seq<bool>, i: nat)
    requires i < |bits|
    ensures Word(bits) / Pow2(i) % 2 == 1 <==> bits[i]
    decreases |bits|
  {
    var n := |bits| - 1;
    var low := Word(bits[..n]);
    if i == n {
      QuotientIs(Word(bits), Pow2(n), if bits[n] then 1 else 0, low);
    } else {
      BitOfWord(bits[..n], i);
      if bits[n] {
        var h := PowerApart(n, i);
        HighBitKeeps(low, Pow2(n), Pow2(i), h);
      }
    }
  }

  type Scorer = (nat, nat) -> int

  // The sign bits of one word: which of its scores are positive.
  function PositiveBits(score: Scorer, row: nat, n: nat): (bits: seq<bool>)
    ensures |bits| == n
  {
    if n == 0 then [] else PositiveBits(score, row, n - 1) + [score(row, n - 1) > 0]
  }

  lemma {:induction false} PositiveBitAt(score: Scorer, row: nat, n: nat, b: nat)
    requires b < n
    ensures PositiveBits(score, row, n)[b] <==> score(row, b) > 0
    decreases n
  {
    if b < n - 1 { PositiveBitAt(score, row, n - 1, b); }
  }

  function ProjectedScore(v: seq<i16>): Scorer { (row: nat, bit: nat) => Score(Sign, v, row, bit) }

  function ProjectedWord(score: Scorer, row: nat): nat { Word(PositiveBits(score, row, GROUP)) }

  // The stored bits of a vector whose partial sums fit 16 bits are the signs of
  // its scalar products with the 128 rows of the table.
  lemma {:induction false} ProjectionBits(v: seq<i16>, row: nat, bit: nat)
    requires GroupsFit(Sign, v, bit) && bit < GROUP
    ensures ProjectedWord(ProjectedScore(v), row) / Pow2(bit) % 2 == 1 <==> Dot(Sign, v, GROUP * row + bit) > 0
  {
    var score := ProjectedScore(v);
    BitOfWord(PositiveBits(score, row, GROUP), bit);
    PositiveBitAt(score, row, GROUP, bit);
    ScoreIsDot(v, row, bit);
  }

  // ---------- the loops ----------

  lemma WrapSum(a: int, b: int)
    ensures WrapI16(WrapI16(a) as int + WrapI16(b) as int) == WrapI16(a + b)
  {
  }

  ghost predicate Unit(x: int) { x == 1 || x == -1 }

  lemma TimesUnit(x: int, sign: int)
    requires Unit(sign)
    ensures x * sign == Signed(sign, x)
  {
  }

  lemma TableCell(rotation: seq<i16>, bit: nat, group: nat, e: nat)
    requires |rotation| == SIDE * SIDE && IsTable(rotation, SIDE)
    requires bit < GROUP && group < GROUPS && e < GROUP
    ensures rotation[128 * bit + (GROUP * group + e)] as int == Sign(bit, e)
  {
    assert At(rotation, bit, GROUP * group + e) == Sign(bit, GROUP * group + e);
    SignOfGroups(0, bit, group, e);
  }

  lemma PartialStep(v: seq<i16>, rotation: seq<i16>, bit: nat, group: nat, e: nat, f: Term)
    requires |v| == SIDE && |rotation| == SIDE * SIDE && IsTable(rotation, SIDE)
    requires bit < GROUP && group < GROUPS && e < GROUP && f == GroupTerm(Sign, v, bit, group)
    ensures (v[GROUP * group + e] as int) * (rotation[128 * bit + (GROUP * group + e)] as int) == f(e)
  {
    TableCell(rotation, bit, group, e);
    TimesUnit(v[GROUP * group + e], Sign(bit, e));
    assert f(e) == Signed(Sign(bit, e), Entry(v, GROUP * group + e));
  }

  method PartialSum(compressed: seq<i16>, rotation: seq<i16>, bit: nat, group: nat) returns (sum: i16)
    requires |compressed| == SIDE && |rotation| == SIDE * SIDE && IsTable(rotation, SIDE)
    requires bit < GROUP && group < GROUPS
    ensures sum == WrapI16(GroupSum(Sign, compressed, bit, group))
  {
    sum := 0;
    ghost var f := GroupTerm(Sign, compressed, bit, group);
    for e := 0 to GROUP
      invariant sum == WrapI16(Sum(f, e))
    {
      sum := AddTerm(compressed, rotation, bit, group, e, sum, f);
    }
  }

  method AddTerm(compressed: seq<i16>, rotation: seq<i16>, bit: nat, group: nat, e: nat, sum: i16, ghost f: Term)
    returns (sum': i16)
    requires |compressed| == SIDE && |rotation| == SIDE * SIDE && IsTable(rotation, SIDE)
    requires bit < GROUP && group < GROUPS && e < GROUP && f == GroupTerm(Sign, compressed, bit, group)
    requires sum == WrapI16(Sum(f, e))
    ensures sum' == WrapI16(Sum(f, e + 1))
  {
    var index := GROUP * group + e;
    PartialStep(compressed, rotation, bit, group, e, f);
    sum' := MultiplyAdd(sum, compressed[index], rotation[128 * bit + index], Sum(f, e));
  }

  method MultiplyAdd(sum: i16, value: i16, basis: i16, ghost exact: int) returns (sum': i16)
    requires sum == WrapI16(exact)
    ensures sum' == WrapI16(exact + (value as int) * (basis as int))
  {
    var product := (value as int) * (basis as int);
    WrapSum(exact, product);
    sum' := WrapI16(sum as int + WrapI16(product) as int);
  }

  const SIGNS: seq<seq<int>> := [[1, 1, 1, 1], [1, -1, 1, -1], [1, 1, -1, -1], [1, -1, -1, 1]]

  lemma SmallSigns(row: nat, group: nat)
    requires row < GROUPS && group < GROUPS
    ensures Sign(row, group) == SIGNS[row][group]
  {
    var r, g := row, group;
    assert Shared(r, g) == (r % 2) * (g % 2) + Shared(r / 2, g / 2);
    assert Shared(r / 2, g / 2) == (r / 2 % 2) * (g / 2 % 2) + Shared(r / 4, g / 4);
  }

  // What the partial sums of one bit position hold.
  ghost predicate PartialsHold(partial: seq<i16>, v: seq<i16>, bit: nat) {
    |partial| == GROUPS && forall g :: 0 <= g < GROUPS ==> partial[g] == WrapI16(GroupSum(Sign, v, bit, g))
  }

  lemma CombineStep(partial: seq<i16>, v: seq<i16>, row: nat, bit: nat, g: nat, f: Term)
    requires PartialsHold(partial, v, bit) && row < GROUPS && g < GROUPS && f == WrappedGroups(Sign, v, row, bit)
    ensures SIGNS[row][g] * (partial[g] as int) == f(g)
  {
    SmallSigns(row, g);
    TimesUnit(partial[g], Sign(row, g));
  }

  method CombineTerms(partial: seq<i16>, row: nat, ghost f: Term) returns (score: int)
    requires |partial| == GROUPS && row < GROUPS
    requires forall g: nat :: g < GROUPS ==> SIGNS[row][g] * (partial[g] as int) == f(g)
    ensures score == Sum(f, GROUPS)
  {
    score := 0;
    for g := 0 to GROUPS
      invariant score == Sum(f, g)
    {
      score := score + SIGNS[row][g] * (partial[g] as int);
    }
  }

  // The combination of the four partial sums for one word.
  method CombineGroups(partial: seq<i16>, row: nat, ghost v: seq<i16>, ghost bit: nat) returns (score: int)
    requires PartialsHold(partial, v, bit) && row < GROUPS
    ensures score == ProjectedScore(v)(row, bit)
  {
    ghost var f := WrappedGroups(Sign, v, row, bit);
    forall g: nat | g < GROUPS ensures SIGNS[row][g] * (partial[g] as int) == f(g) {
      CombineStep(partial, v, row, bit, g, f);
    }
    score := CombineTerms(partial, row, f);
  }

  lemma NextBit(score: Scorer, row: nat, n: nat)
    ensures Word(PositiveBits(score, row, n + 1))
         == Word(PositiveBits(score, row, n)) + if score(row, n) > 0 then Pow2(n) else 0
  {
    var bits := PositiveBits(score, row, n);
    assert (bits + [score(row, n) > 0])[..n] == bits;
  }

  // The words after bits 0 to n - 1.
  ghost predicate WordsHold(words: seq<nat>, score: Scorer, n: nat) {
    |words| == GROUPS && forall r :: 0 <= r < GROUPS ==> words[r] == Word(PositiveBits(score, r, n))
  }

  // All four words get their bit number `bit`; it is the highest so far, so
  // setting it is adding it.
  method SetBit(word: nat, score: int, bit: nat, ghost row: nat, ghost projected: Scorer) returns (word': nat)
    requires score == projected(row, bit) && word == Word(PositiveBits(projected, row, bit))
    ensures word' == Word(PositiveBits(projected, row, bit + 1))
  {
    NextBit(projected, row, bit);
    word' := if score > 0 then word + Pow2(bit) else word;
  }

  method SetBits(words: seq<nat>, partial: seq<i16>, bit: nat, ghost v: seq<i16>, ghost projected: Scorer)
    returns (words': seq<nat>)
    requires PartialsHold(partial, v, bit) && projected == ProjectedScore(v) && WordsHold(words, projected, bit)
    ensures WordsHold(words', projected, bit + 1)
  {
    words' := words;
    for row := 0 to GROUPS
      invariant WordsHoldTo(words', projected, bit, row)
    {
      words' := SetOne(words', partial, bit, row, v, projected);
    }
  }

  // The words when bit number `bit` is set in the first rows only.
  ghost predicate WordsHoldTo(words: seq<nat>, score: Scorer, bit: nat, row: nat) {
    && |words| == GROUPS
    && forall r :: 0 <= r < GROUPS ==> words[r] == Word(PositiveBits(score, r, if r < row then bit + 1 else bit))
  }

  method SetOne(words: seq<nat>, partial: seq<i16>, bit: nat, row: nat, ghost v: seq<i16>, ghost projected: Scorer)
    returns (words': seq<nat>)
    requires PartialsHold(partial, v, bit) && projected == ProjectedScore(v) && row < GROUPS
    requires WordsHoldTo(words, projected, bit, row)
    ensures WordsHoldTo(words', projected, bit, row + 1)
  {
    var score := CombineGroups(partial, row, v, bit);
    var word := SetBit(words[row], score, bit, row, projected);
    words' := words[row := word];
  }

  method GroupSums(compressed: seq<i16>, rotation: seq<i16>, bit: nat) returns (partial: seq<i16>)
    requires |compressed| == SIDE && |rotation| == SIDE * SIDE && IsTable(rotation, SIDE) && bit < GROUP
    ensures PartialsHold(partial, compressed, bit)
  {
    partial := [];
    for group := 0 to GROUPS
      invariant |partial| == group
      invariant forall g :: 0 <= g < group ==> partial[g] == WrapI16(GroupSum(Sign, compressed, bit, g))
    {
      var sum := PartialSum(compressed, rotation, bit, group);
      partial := partial + [sum];
    }
  }

  lemma {:induction false} WordFits(bits: seq<bool>)
    requires |bits| == GROUP
    ensures Word(bits) < 0x1_0000_0000
  {
    SquareRoot.WidePowers();
    PowOfSum(31, 1);
  }

  lemma WordsFit(w: seq<nat>, score: Scorer)
    requires WordsHold(w, score, GROUP)
    ensures forall r :: 0 <= r < GROUPS ==> w[r] == ProjectedWord(score, r) && w[r] < 0x1_0000_0000
  {
    forall r | 0 <= r < GROUPS ensures w[r] == ProjectedWord(score, r) && w[r] < 0x1_0000_0000 {
      WordFits(PositiveBits(score, r, GROUP));
    }
  }

  method ProjectedWords(compressed: seq<i16>, rotation: seq<i16>) returns (words: seq<nat>)
    requires |compressed| == SIDE && |rotation| == SIDE * SIDE && IsTable(rotation, SIDE)
    ensures WordsHold(words, ProjectedScore(compressed), GROUP)
  {
    words := [0, 0, 0, 0];
    for bit := 0 to GROUP
      invariant WordsHold(words, ProjectedScore(compressed), bit)
    {
      var partial := GroupSums(compressed, rotation, bit);
      words := SetBits(words, partial, bit, compressed, ProjectedScore(compressed));
    }
  }

  method StoreWords(record: array<u8>, image: seq<u8>)
    requires record.Length == RECORD_BYTES && |image| == 0x10
    modifies record
    ensures record[..] == old(record[..AT]) + image + Zeros(8) + old(record[AT + 0x18..])
  {
    forall k | AT <= k < AT + 0x18 { record[k] := 0; }
    forall k | 0 <= k < 0x10 { record[AT + k] := image[k]; }
  }

  method Pack(w: seq<nat>, ghost score: Scorer) returns (words: seq<u32>)
    requires WordsHold(w, score, GROUP)
    ensures |words| == GROUPS && forall r :: 0 <= r < GROUPS ==> words[r] == ProjectedWord(score, r)
  {
    WordsFit(w, score);
    words := w;
  }

  // The descriptor area of the record: four words, then zeros.
  method Project(record: array<u8>, compressed: seq<i16>, rotation: seq<i16>) returns (words: seq<u32>)
    requires record.Length == RECORD_BYTES
    requires |compressed| == SIDE && |rotation| == SIDE * SIDE && IsTable(rotation, SIDE)
    modifies record
    ensures |words| == GROUPS && forall r :: 0 <= r < GROUPS ==>
              words[r] == ProjectedWord(ProjectedScore(compressed), r)
    ensures record[..] == old(record[..AT]) + Bytes(words) + Zeros(8) + old(record[AT + 0x18..])
  {
    var w := ProjectedWords(compressed, rotation);
    words := Pack(w, ProjectedScore(compressed));
    StoreWords(record, Bytes(words));
  }
}
