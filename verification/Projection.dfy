// The descriptor projection: 128 sign sums taken as 4 groups of 32 in 16-bit
// arithmetic, one bit of the record for each.
module Projection {
  import opened Words
  import opened Arithmetic
  import opened Hadamard

  const GROUP: nat := 32
  const GROUPS: nat := 4

  // The sign of a table cell; most of what follows needs only how signs of
  // composite indices split.
  type Signs = (nat, nat) -> int

  function Composite(sign: Signs, row: nat, bit: nat, group: nat, e: nat): int {
    sign(GROUP * row + bit, GROUP * group + e)
  }

  ghost predicate Splits(sign: Signs) {
    forall row: nat, bit: nat, group: nat, e: nat {:trigger Composite(sign, row, bit, group, e)} ::
      bit < GROUP && e < GROUP ==> Composite(sign, row, bit, group, e) == Signed(sign(row, group), sign(bit, e))
  }

  ghost predicate Units(sign: Signs) { forall i, j :: Abs(sign(i, j)) == 1 }

  // A product with a sign.
  function Signed(sign: int, x: int): int { if sign > 0 then x else -x }

  lemma FiveBits()
    ensures Pow2(5) == GROUP
  {
    assert Pow2(2) == 4 && Pow2(3) == 8;
    PowOfSum(2, 3);
  }

  lemma SignOfGroups(row: nat, bit: nat, group: nat, e: nat)
    requires bit < GROUP && e < GROUP
    ensures Sign(GROUP * row + bit, GROUP * group + e) == Signed(Sign(row, group), Sign(bit, e))
  {
    FiveBits();
    SignSplits(5, row, group, bit, e);
  }

  lemma SignSplitsByGroups()
    ensures Splits(Sign)
  {
    forall row: nat, bit: nat, group: nat, e: nat | bit < GROUP && e < GROUP
      ensures Composite(Sign, row, bit, group, e) == Signed(Sign(row, group), Sign(bit, e))
    {
      SignOfGroups(row, bit, group, e);
    }
  }

  function Entry(v: seq<i16>, m: nat): int { if m < |v| then v[m] else 0 }

  // The scalar product of the vector with a whole row of the table.
  function RowTerm(sign: Signs, v: seq<i16>, row: nat): Term { (m: nat) => Signed(sign(row, m), Entry(v, m)) }

  function Dot(sign: Signs, v: seq<i16>, row: nat): int { Sum(RowTerm(sign, v, row), GROUPS * GROUP) }

  function GroupTerm(sign: Signs, v: seq<i16>, bit: nat, group: nat): Term {
    (e: nat) => Signed(sign(bit, e), Entry(v, GROUP * group + e))
  }

  function GroupSum(sign: Signs, v: seq<i16>, bit: nat, group: nat): int { Sum(GroupTerm(sign, v, bit, group), GROUP) }

  lemma SumSplits(f: Term, g: Term, a: nat, n: nat)
    requires forall e: nat :: e < n ==> g(e) == f(a + e)
    ensures Sum(f, a + n) == Sum(f, a) + Sum(g, n)
    decreases n
  {
    if n > 0 {
      SumSplits(f, g, a, n - 1);
      assert g(n - 1) == f(a + (n - 1));
    }
  }

  lemma {:induction false} SumSigned(f: Term, g: Term, sign: int, n: nat)
    requires forall e: nat :: e < n ==> f(e) == Signed(sign, g(e))
    ensures Sum(f, n) == Signed(sign, Sum(g, n))
    decreases n
  {
    if n > 0 { SumSigned(f, g, sign, n - 1); }
  }

  lemma {:induction false} SumsAgree(f: Term, g: Term, n: nat)
    requires forall e: nat :: e < n ==> f(e) == g(e)
    ensures Sum(f, n) == Sum(g, n)
    decreases n
  {
    if n > 0 { SumsAgree(f, g, n - 1); }
  }

  lemma {:induction false} SumBounded(f: Term, least: int, most: int, n: nat)
    requires forall e: nat :: e < n ==> least <= f(e) <= most
    ensures least * n <= Sum(f, n) <= most * n
    decreases n
  {
    if n > 0 {
      SumBounded(f, least, most, n - 1);
      OneMore(n, least);
      OneMore(n, most);
    }
  }

  lemma {:induction false} SumOfFour(f: Term, n: nat)
    requires n == 4
    ensures Sum(f, n) == f(0) + f(1) + f(2) + f(3)
  {
    assert Sum(f, n - 4) == 0;
    assert Sum(f, n - 3) == f(0);
    assert Sum(f, n - 2) == Sum(f, n - 3) + f(1);
    assert Sum(f, n - 1) == Sum(f, n - 2) + f(2);
  }

  function Shifted(f: Term, a: nat): Term { (e: nat) => f(a + e) }

  lemma CellOfRow(sign: Signs, v: seq<i16>, row: nat, bit: nat, group: nat, e: nat)
    requires Splits(sign) && Units(sign) && bit < GROUP && e < GROUP
    ensures RowTerm(sign, v, GROUP * row + bit)(GROUP * group + e)
            == Signed(sign(row, group), GroupTerm(sign, v, bit, group)(e))
  {
    assert Composite(sign, row, bit, group, e) == Signed(sign(row, group), sign(bit, e));
    assert Abs(sign(bit, e)) == 1;
  }

  lemma {:induction false} GroupOfRow(sign: Signs, v: seq<i16>, row: nat, bit: nat, group: nat, size: nat)
    requires Splits(sign) && Units(sign) && bit < GROUP && size <= GROUP
    ensures Sum(Shifted(RowTerm(sign, v, GROUP * row + bit), GROUP * group), size)
         == Signed(sign(row, group), Sum(GroupTerm(sign, v, bit, group), size))
  {
    var f, g := Shifted(RowTerm(sign, v, GROUP * row + bit), GROUP * group), GroupTerm(sign, v, bit, group);
    forall e: nat | e < size ensures f(e) == Signed(sign(row, group), g(e)) {
      CellOfRow(sign, v, row, bit, group, e);
    }
    SumSigned(f, g, sign(row, group), size);
  }

  function Groups(sign: Signs, v: seq<i16>, row: nat, bit: nat): Term {
    (g: nat) => Signed(sign(row, g), GroupSum(sign, v, bit, g))
  }

  lemma {:induction false} AddGroup(f: Term, a: nat, n: nat)
    ensures Sum(f, a + n) == Sum(f, a) + Sum(Shifted(f, a), n)
  {
    SumSplits(f, Shifted(f, a), a, n);
  }

  lemma {:induction false} SumByGroups(f: Term, parts: Term, size: nat, n: nat)
    requires forall g: nat :: g < n ==> parts(g) == Sum(Shifted(f, size * g), size)
    ensures Sum(f, size * n) == Sum(parts, n)
    decreases n
  {
    if n > 0 {
      var a := size * (n - 1);
      SumByGroups(f, parts, size, n - 1);
      AddGroup(f, a, size);
      assert a + size == size * n;
      assert parts(n - 1) == Sum(Shifted(f, a), size);
    }
  }

  lemma DotByGroups(sign: Signs, v: seq<i16>, row: nat, bit: nat)
    requires Splits(sign) && Units(sign) && bit < GROUP
    ensures Dot(sign, v, GROUP * row + bit) == Sum(Groups(sign, v, row, bit), GROUPS)
  {
    var f, parts := RowTerm(sign, v, GROUP * row + bit), Groups(sign, v, row, bit);
    forall g: nat | g < GROUPS ensures parts(g) == Sum(Shifted(f, GROUP * g), GROUP) {
      GroupOfRow(sign, v, row, bit, g, GROUP);
    }
    SumByGroups(f, parts, GROUP, GROUPS);
  }

  // ---------- 16-bit partial sums ----------

  function WrappedGroups(sign: Signs, v: seq<i16>, row: nat, bit: nat): Term {
    (g: nat) => Signed(sign(row, g), WrapI16(GroupSum(sign, v, bit, g)))
  }

  // What decides bit `bit` of word `row`.
  function Score(sign: Signs, v: seq<i16>, row: nat, bit: nat): int { Sum(WrappedGroups(sign, v, row, bit), GROUPS) }

  ghost predicate Bounded(v: seq<i16>) { forall m :: 0 <= m < |v| ==> Abs(v[m]) <= 1023 }

  lemma TermBound(sign: Signs, v: seq<i16>, bit: nat, group: nat, e: nat)
    requires Bounded(v)
    ensures -1023 <= GroupTerm(sign, v, bit, group)(e) <= 1023
  {
    var m := GROUP * group + e;
    assert Abs(Entry(v, m)) <= 1023 by { if m < |v| { assert Abs(v[m]) <= 1023; } }
    assert GroupTerm(sign, v, bit, group)(e) == Signed(sign(bit, e), Entry(v, m));
  }

  lemma GroupFits(sign: Signs, v: seq<i16>, bit: nat, group: nat)
    requires Bounded(v)
    ensures WrapI16(GroupSum(sign, v, bit, group)) as int == GroupSum(sign, v, bit, group)
  {
    forall e: nat | e < GROUP ensures -1023 <= GroupTerm(sign, v, bit, group)(e) <= 1023 {
      TermBound(sign, v, bit, group, e);
    }
    SumBounded(GroupTerm(sign, v, bit, group), -1023, 1023, GROUP);
    Unwrapped(GroupSum(sign, v, bit, group));
  }

  lemma Unwrapped(x: int)
    requires Abs(x) <= 32736
    ensures WrapI16(x) as int == x
  {
  }

  predicate Fits16(x: int) { -0x8000 <= x < 0x8000 }

  // All four partial sums for a bit are exact.
  ghost predicate GroupsFit(sign: Signs, v: seq<i16>, bit: nat) {
    forall g: nat :: g < GROUPS ==> Fits16(GroupSum(sign, v, bit, g))
  }

  lemma WrapIsExact(x: int)
    ensures WrapI16(x) as int == x <==> Fits16(x)
  {
  }

  lemma ScoreByGroups(sign: Signs, v: seq<i16>, row: nat, bit: nat)
    requires GroupsFit(sign, v, bit) && Splits(sign) && Units(sign) && bit < GROUP
    ensures Score(sign, v, row, bit) == Dot(sign, v, GROUP * row + bit)
  {
    forall g: nat | g < GROUPS ensures WrappedGroups(sign, v, row, bit)(g) == Groups(sign, v, row, bit)(g) {
      WrapIsExact(GroupSum(sign, v, bit, g));
    }
    SumsAgree(WrappedGroups(sign, v, row, bit), Groups(sign, v, row, bit), GROUPS);
    DotByGroups(sign, v, row, bit);
  }

  // The four rows of signs by which the partial sums are combined.
  ghost predicate FourRows(sign: Signs) {
    && (forall g: nat :: g < GROUPS ==> sign(0, g) > 0)
    && sign(1, 0) > 0 && sign(1, 1) < 0 && sign(1, 2) > 0 && sign(1, 3) < 0
    && sign(2, 0) > 0 && sign(2, 1) > 0 && sign(2, 2) < 0 && sign(2, 3) < 0
    && sign(3, 0) > 0 && sign(3, 1) < 0 && sign(3, 2) < 0 && sign(3, 3) > 0
  }

  lemma SignFourRows()
    ensures FourRows(Sign)
  {
  }

  function Combined(sign: Signs, s: Term, row: nat): int {
    Signed(sign(row, 0), s(0)) + Signed(sign(row, 1), s(1)) + Signed(sign(row, 2), s(2)) + Signed(sign(row, 3), s(3))
  }

  // Four sums that combine alike in all four rows are the same.
  lemma RowsDetermine(sign: Signs, s: Term, w: Term)
    requires FourRows(sign)
    requires Combined(sign, s, 0) == Combined(sign, w, 0) && Combined(sign, s, 1) == Combined(sign, w, 1)
    requires Combined(sign, s, 2) == Combined(sign, w, 2) && Combined(sign, s, 3) == Combined(sign, w, 3)
    ensures forall g: nat :: g < GROUPS ==> s(g) == w(g)
  {
    forall g: nat | g < GROUPS ensures s(g) == w(g) { assert g == 0 || g == 1 || g == 2 || g == 3; }
  }

  function PlainSums(sign: Signs, v: seq<i16>, bit: nat): Term { (g: nat) => GroupSum(sign, v, bit, g) }

  function WrappedSums(sign: Signs, v: seq<i16>, bit: nat): Term { (g: nat) => WrapI16(GroupSum(sign, v, bit, g)) }

  lemma ScoreAndDot(sign: Signs, v: seq<i16>, row: nat, bit: nat)
    requires Splits(sign) && Units(sign) && bit < GROUP
    ensures Score(sign, v, row, bit) == Combined(sign, WrappedSums(sign, v, bit), row)
    ensures Dot(sign, v, GROUP * row + bit) == Combined(sign, PlainSums(sign, v, bit), row)
  {
    DotByGroups(sign, v, row, bit);
    SumOfFour(Groups(sign, v, row, bit), GROUPS);
    SumOfFour(WrappedGroups(sign, v, row, bit), GROUPS);
  }

  ghost predicate AllRowsExact(sign: Signs, v: seq<i16>, bit: nat) {
    forall row: nat :: row < GROUPS ==> Score(sign, v, row, bit) == Dot(sign, v, GROUP * row + bit)
  }

  lemma ExactNeedsFit(sign: Signs, v: seq<i16>, bit: nat)
    requires Splits(sign) && Units(sign) && FourRows(sign) && bit < GROUP && AllRowsExact(sign, v, bit)
    ensures GroupsFit(sign, v, bit)
  {
    var s, w := PlainSums(sign, v, bit), WrappedSums(sign, v, bit);
    forall row: nat | row < GROUPS ensures Combined(sign, s, row) == Combined(sign, w, row) {
      ScoreAndDot(sign, v, row, bit);
    }
    RowsDetermine(sign, s, w);
    forall g: nat | g < GROUPS ensures Fits16(GroupSum(sign, v, bit, g)) {
      assert s(g) == w(g);
      WrapIsExact(GroupSum(sign, v, bit, g));
    }
  }

  // The factored scores for a bit are the scalar products with the four whole
  // rows exactly when no partial sum leaves 16 bits.
  lemma ExactProjection(v: seq<i16>, bit: nat)
    requires bit < GROUP
    ensures AllRowsExact(Sign, v, bit) <==> GroupsFit(Sign, v, bit)
  {
    SignSplitsByGroups();
    SignFourRows();
    SignsAreUnits();
    if GroupsFit(Sign, v, bit) {
      forall row: nat | row < GROUPS ensures Score(Sign, v, row, bit) == Dot(Sign, v, GROUP * row + bit) {
        ScoreByGroups(Sign, v, row, bit);
      }
    }
    if AllRowsExact(Sign, v, bit) { ExactNeedsFit(Sign, v, bit); }
  }

  lemma SignsAreUnits()
    ensures Units(Sign)
  {
    forall i: nat, j: nat ensures Abs(Sign(i, j)) == 1 { }
  }

  // Entries of at most 1023 in magnitude keep every partial sum in 16 bits.
  lemma BoundedFits(v: seq<i16>, bit: nat)
    requires Bounded(v)
    ensures GroupsFit(Sign, v, bit)
  {
    forall g: nat | g < GROUPS ensures Fits16(GroupSum(Sign, v, bit, g)) {
      GroupFits(Sign, v, bit, g);
      WrapIsExact(GroupSum(Sign, v, bit, g));
    }
  }

  // While the partial sums fit, the factored score is the scalar product with
  // the whole row.
  lemma ScoreIsDot(v: seq<i16>, row: nat, bit: nat)
    requires GroupsFit(Sign, v, bit) && bit < GROUP
    ensures Score(Sign, v, row, bit) == Dot(Sign, v, GROUP * row + bit)
  {
    SignSplitsByGroups();
    SignsAreUnits();
    ScoreByGroups(Sign, v, row, bit);
  }

  lemma {:induction false} SumOfConstant(f: Term, value: int, n: nat)
    requires forall e: nat :: e < n ==> f(e) == value
    ensures Sum(f, n) == value * n
    decreases n
  {
    if n > 0 { SumOfConstant(f, value, n - 1); }
  }

  lemma StepVectorGroup(sign: Signs, v: seq<i16>, g: nat)
    requires |v| == 128 && forall m :: 0 <= m < 128 ==> v[m] == if m < 32 then 1024 else 0
    requires forall m: nat :: sign(0, m) == 1
    ensures GroupSum(sign, v, 0, g) == if g == 0 then 32768 else 0
  {
    var value := if g == 0 then 1024 else 0;
    forall e: nat | e < GROUP ensures GroupTerm(sign, v, 0, g)(e) == value {
      assert sign(0, e) == 1;
      assert Entry(v, GROUP * g + e) == value;
    }
    SumOfConstant(GroupTerm(sign, v, 0, g), value, GROUP);
  }

  lemma {:induction false} StepVectorDot(sign: Signs, v: seq<i16>, n: nat)
    requires |v| == 128 && forall m :: 0 <= m < 128 ==> v[m] == if m < 32 then 1024 else 0
    requires forall m: nat :: sign(0, m) == 1
    ensures Sum(RowTerm(sign, v, 0), n) == 1024 * Min(n, 32)
    decreases n
  {
    if n > 0 {
      StepVectorDot(sign, v, n - 1);
      assert sign(0, n - 1) == 1;
    }
  }

  lemma StepVectorWrapped(sign: Signs, v: seq<i16>)
    requires |v| == 128 && forall m :: 0 <= m < 128 ==> v[m] == if m < 32 then 1024 else 0
    requires forall m: nat :: sign(0, m) == 1
    ensures Score(sign, v, 0, 0) == -32768
  {
    forall g: nat ensures WrappedGroups(sign, v, 0, 0)(g) == if g == 0 then -32768 else 0 {
      assert sign(0, g) == 1;
      StepVectorGroup(sign, v, g);
    }
    SumOfFour(WrappedGroups(sign, v, 0, 0), GROUPS);
  }

  // The bound is tight: 32 entries of 1024 wrap, and the bit comes out wrong.
  lemma BoundIsTight(v: seq<i16>)
    requires |v| == 128 && forall m :: 0 <= m < 128 ==> v[m] == if m < 32 then 1024 else 0
    ensures Score(Sign, v, 0, 0) < 0 < Dot(Sign, v, 0)
  {
    forall m: nat ensures Sign(0, m) == 1 { }
    StepVectorWrapped(Sign, v);
    StepVectorDot(Sign, v, GROUPS * GROUP);
  }
}
