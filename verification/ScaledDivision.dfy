// The Q12 quotient of the solve: both operands are cut to 32 bits by a common
// arithmetic shift, quotients that are clearly too large saturate.
module ScaledDivision {
  import opened Words
  import opened Arithmetic
  import SquareRoot
  import opened Solve

  function BitLength(n: nat): nat { if n == 0 then 0 else 1 + BitLength(n / 2) }

  lemma {:induction false} BitLengthBounds(n: nat)
    ensures n < Pow2(BitLength(n))
    ensures n > 0 ==> BitLength(n) > 0 && Pow2(BitLength(n) - 1) <= n
    decreases n
  {
    if n > 0 { BitLengthBounds(n / 2); }
  }

  // One more than the length of the magnitude.
  method CountBits(value: int) returns (count: nat)
    ensures count == 1 + BitLength(Abs(value))
  {
    count := 1;
    var magnitude: nat := Abs(value);
    while magnitude != 0
      invariant count + BitLength(magnitude) == 1 + BitLength(Abs(value))
    {
      count := count + 1;
      magnitude := magnitude / 2;
    }
  }

  // A shift of a negative value complements before and after.
  function ShiftRight(value: int, shift: nat): int {
    if shift == 0 then value
    else if shift >= 64 then if value < 0 then -1 else 0
    else if value >= 0 then value / Pow2(shift)
    else -1 - (-1 - value) / Pow2(shift)
  }

  lemma {:induction false} ShiftIsFloor(value: int, shift: nat)
    requires shift < 64
    ensures ShiftRight(value, shift) == value / Pow2(shift)
  {
    var p := Pow2(shift);
    if shift > 0 && value < 0 {
      var q, r := (-1 - value) / p, (-1 - value) % p;
      assert -1 - value == p * q + r;
      assert value == p * (-1 - q) + (p - 1 - r);
      QuotientIs(value, p, -1 - q, p - 1 - r);
    }
  }

  const SATURATED: int := 0xff_ffff

  // What the code stores for one numerator.
  function Quotient(numerator: int, determinant: int): int
    requires determinant != 0
  {
    var n, d := 1 + BitLength(Abs(numerator)), 1 + BitLength(Abs(determinant));
    if n - d >= 9 then SATURATED
    else
      var common := Max(n, d);
      var shift := Max(common - 32, 0);
      var divisor := ShiftRight(determinant, shift);
      if divisor == 0 then 0 else TruncDiv(ShiftRight(numerator, shift) * 4096, divisor)
  }

  lemma FloorAway(x: int, p: nat, d: int)
    requires p > 0 && d > 0 && Abs(x) >= p * d
    ensures Abs(x / p) >= d
  {
    if x < 0 {
      assert p * -d == -(p * d);
      FloorAtMost(x, p, -d);
    } else {
      FloorAtLeast(x, p, d);
    }
  }

  lemma FloorWithin(x: int, p: nat, d: int)
    requires p > 0 && d > 0 && Abs(x) <= p * d
    ensures Abs(x / p) <= d
  {
    assert p * -d == -(p * d);
    FloorAtMost(x, p, d);
    FloorAtLeast(x, p, -d);
  }

  // The shift leaves the divisor at least d and the dividend at most 512 d.
  lemma AfterShift(numerator: int, determinant: int, p: nat, d: nat)
    requires p > 0 && d > 0 && Abs(determinant) >= p * d && Abs(numerator) <= 512 * (p * d)
    ensures Abs(determinant / p) >= d && Abs(numerator / p) <= 512 * d
  {
    FloorAway(determinant, p, d);
    assert 512 * (p * d) == p * (512 * d);
    FloorWithin(numerator, p, 512 * d);
  }

  lemma FloorAtLeast(x: int, p: nat, d: int)
    requires p > 0 && x >= p * d
    ensures x / p >= d
  {
    var q := x / p;
    assert x < p * q + p;
    assert p * (q + 1 - d) > 0;
    PositiveFactor(p, q + 1 - d);
  }

  lemma PowersApart(a: nat, b: nat, shift: nat)
    requires b > shift && a <= b + 8
    ensures Pow2(b - 1) == Pow2(shift) * Pow2(b - 1 - shift) && Pow2(a) <= 512 * Pow2(b - 1)
  {
    PowOfSum(shift, b - 1 - shift);
    PowMonotone(a, b + 8);
    PowOfSum(9, b - 1);
    NinthPower();
  }

  // How far apart unsaturated operands can be.
  lemma Apart(numerator: int, determinant: int, shift: nat) returns (d: nat)
    requires determinant != 0
    requires 1 + BitLength(Abs(numerator)) - (1 + BitLength(Abs(determinant))) < 9
    requires shift == Max(Max(1 + BitLength(Abs(numerator)), 1 + BitLength(Abs(determinant))) - 32, 0)
    ensures d > 0 && Abs(determinant) >= Pow2(shift) * d && Abs(numerator) <= 512 * (Pow2(shift) * d)
  {
    var a, b := BitLength(Abs(numerator)), BitLength(Abs(determinant));
    BitLengthBounds(Abs(numerator));
    BitLengthBounds(Abs(determinant));
    d := Pow2(b - 1 - shift);
    PowersApart(a, b, shift);
  }

  lemma NinthPower()
    ensures Pow2(9) == 512
  {
    assert Pow2(3) == 8;
    PowOfSum(3, 3);
    PowOfSum(6, 3);
  }

  lemma QuotientBound(s: int, t: int, d: nat)
    requires d > 0 && Abs(t) >= d && Abs(s) <= 512 * d
    ensures Abs(TruncDiv(s * 4096, t)) <= 0x20_0000
  {
    var x := Abs(s * 4096);
    assert x <= 0x20_0000 * Abs(t);
    FloorAtMost(x, Abs(t), 0x20_0000);
  }

  // The division never meets a zero, and the result fits 32 bits with room.
  lemma QuotientIsTotal(numerator: int, determinant: int, shift: nat)
    requires determinant != 0 && Abs(numerator) <= FIT && Abs(determinant) <= FIT
    requires 1 + BitLength(Abs(numerator)) - (1 + BitLength(Abs(determinant))) < 9
    requires shift == Max(Max(1 + BitLength(Abs(numerator)), 1 + BitLength(Abs(determinant))) - 32, 0)
    ensures shift < 64 && ShiftRight(determinant, shift) != 0
    ensures Abs(TruncDiv(ShiftRight(numerator, shift) * 4096, ShiftRight(determinant, shift))) <= 0x20_0000
  {
    ShiftSmall(numerator, determinant);
    var d := Apart(numerator, determinant, shift);
    ShiftIsFloor(numerator, shift);
    ShiftIsFloor(determinant, shift);
    AfterShift(numerator, determinant, Pow2(shift), d);
    QuotientBound(numerator / Pow2(shift), determinant / Pow2(shift), d);
  }

  // Both operands are cut to 32 bits, so the scaled numerator fits 64.
  lemma OperandFits(value: int, shift: nat)
    requires shift < 64 && 1 + BitLength(Abs(value)) <= 32 + shift
    ensures -0x8000_0000 <= ShiftRight(value, shift) < 0x8000_0000 && Fits(ShiftRight(value, shift) * 4096)
  {
    BitLengthBounds(Abs(value));
    PowMonotone(BitLength(Abs(value)), 31 + shift);
    PowOfSum(shift, 31);
    SquareRoot.WidePowers();
    ShiftIsFloor(value, shift);
    FloorBelow(value, Pow2(shift), 0x8000_0000);
  }

  lemma FloorBelow(x: int, p: nat, d: int)
    requires p > 0 && -(p * d) <= x < p * d
    ensures -d <= x / p < d
  {
    assert p * -d == -(p * d);
    FloorAtLeast(x, p, -d);
    var q := x / p;
    assert x >= p * q;
    assert p * (d - q) > 0;
    PositiveFactor(p, d - q);
  }

  lemma ShiftSmall(a: int, b: int)
    requires Abs(a) <= FIT && Abs(b) <= FIT
    ensures BitLength(Abs(a)) <= 60 && BitLength(Abs(b)) <= 60
  {
    ShortLength(Abs(a));
    ShortLength(Abs(b));
  }

  lemma {:induction false} ShortLength(n: nat)
    requires n <= FIT
    ensures BitLength(n) <= 60
  {
    BitLengthBounds(n);
    if BitLength(n) > 60 {
      PowMonotone(60, BitLength(n) - 1);
      SixtiethPower();
    }
  }

  lemma SixtiethPower()
    ensures Pow2(60) > FIT
  {
    SquareRoot.WidePowers();
    PowOfSum(31, 29);
    PowOfSum(15, 14);
    assert 2 * Pow2(14) == Pow2(15);
  }

  lemma QuotientFits(numerator: int, determinant: int)
    requires determinant != 0 && Abs(numerator) <= FIT && Abs(determinant) <= FIT
    ensures -0x20_0000 <= Quotient(numerator, determinant) <= SATURATED
  {
    var n, d := 1 + BitLength(Abs(numerator)), 1 + BitLength(Abs(determinant));
    if n - d < 9 { QuotientIsTotal(numerator, determinant, Max(Max(n, d) - 32, 0)); }
  }

  lemma {:induction false} LongerMeansLarger(x: nat, y: nat, k: nat)
    requires BitLength(x) >= BitLength(y) + k + 1
    ensures x >= Pow2(k) * y
  {
    BitLengthBounds(x);
    BitLengthBounds(y);
    PowMonotone(k + BitLength(y), BitLength(x) - 1);
    PowOfSum(k, BitLength(y));
    ProductAtMost(Pow2(k), y, Pow2(k), Pow2(BitLength(y)));
  }

  lemma {:induction false} NotLongerMeansBounded(x: nat, y: nat)
    requires y > 0 && BitLength(x) <= BitLength(y) + 8
    ensures x < 512 * y
  {
    BitLengthBounds(x);
    BitLengthBounds(y);
    PowersApart(BitLength(x), BitLength(y), 0);
  }

  // Saturation means a quotient of at least 256; no saturation, one below 512.
  lemma SaturationIsLarge(numerator: int, determinant: int)
    requires determinant != 0
    ensures BitLength(Abs(numerator)) - BitLength(Abs(determinant)) >= 9 ==> Abs(numerator) >= 256 * Abs(determinant)
    ensures BitLength(Abs(numerator)) - BitLength(Abs(determinant)) < 9 ==> Abs(numerator) < 512 * Abs(determinant)
  {
    var x: nat, y: nat := Abs(numerator), Abs(determinant);
    if BitLength(x) - BitLength(y) >= 9 {
      LongerMeansLarger(x, y, 8);
      NinthPower();
      assert Pow2(9) == 2 * Pow2(8);
    } else {
      NotLongerMeansBounded(x, y);
    }
  }

  // ---------- distance from the exact quotient ----------

  lemma {:induction false} LongDeterminant(numerator: int, determinant: int, shift: nat)
    requires determinant != 0 && shift > 0
    requires BitLength(Abs(numerator)) - BitLength(Abs(determinant)) < 9
    requires shift == Max(1 + BitLength(Abs(numerator)), 1 + BitLength(Abs(determinant))) - 32
    ensures Abs(determinant) >= Pow2(shift) * 0x40_0000
  {
    var b := BitLength(Abs(determinant));
    BitLengthBounds(Abs(determinant));
    PowMonotone(shift + 22, b - 1);
    PowOfSum(shift, 22);
    PowOfSum(15, 7);
    SquareRoot.WidePowers();
    assert Pow2(7) == 128;
  }

  // From the three remainders of the shifted division.
  lemma RemaindersSmall(n: int, d: int, p: nat, s: int, t: int, q: int, a: nat, b: nat, r: int)
    requires n == p * s + a && d == p * t + b && a < p && b < p && s * 4096 == q * t + r && Abs(r) < Abs(t)
    ensures q * d - 4096 * n == q * b - 4096 * a - p * r
  {
    Regroup(q, p, t, b);
    Spread(p, s, q * t, r);
  }

  lemma Regroup(q: int, p: int, t: int, b: int)
    ensures q * (p * t + b) == p * (q * t) + q * b
  {
  }

  lemma Spread(p: int, s: int, x: int, r: int)
    requires x == s * 4096 - r
    ensures p * x == 4096 * (p * s) - p * r
  {
  }

  lemma TruncRemainder(x: int, y: int) returns (r: int)
    requires y != 0
    ensures x == TruncDiv(x, y) * y + r && Abs(r) < Abs(y)
  {
    r := x - TruncDiv(x, y) * y;
    var m, k := Abs(x) / Abs(y), Abs(x) % Abs(y);
    assert Abs(x) == Abs(y) * m + k;
  }

  lemma ErrorBound(p: nat, q: int, a: nat, b: nat, r: int, t: int, d: int)
    requires a < p && b < p && Abs(q) <= 0x20_0000 && Abs(r) < Abs(t) && d == p * t + b && Abs(d) >= p * 0x40_0000
    ensures Abs(q * b - 4096 * a - p * r) < 2 * Abs(d)
  {
    ProductBound(q, b, 0x20_0000, p);
    ProductBound(p, r, p, Abs(t) - 1);
    AbsProduct(p, t);
    assert p * (Abs(t) - 1) == p * Abs(t) - p;
  }

  lemma CloseAfterShift(n: int, d: int, p: nat, s: int, t: int, q: int)
    requires p > 0 && s == n / p && t == d / p && t != 0 && q == TruncDiv(s * 4096, t)
    requires Abs(q) <= 0x20_0000 && Abs(d) >= p * 0x40_0000
    ensures Abs(q * d - 4096 * n) < 2 * Abs(d)
  {
    var a := FloorRemainder(n, p);
    var b := FloorRemainder(d, p);
    var r := TruncRemainder(s * 4096, t);
    RemaindersSmall(n, d, p, s, t, q, a, b, r);
    ErrorBound(p, q, a, b, r, t, d);
  }

  lemma FloorRemainder(x: int, p: nat) returns (r: nat)
    requires p > 0
    ensures r < p && x == p * (x / p) + r
  {
    r := x % p;
  }

  lemma CloseUnshifted(n: int, d: int)
    requires d != 0
    ensures Abs(TruncDiv(n * 4096, d) * d - 4096 * n) < 2 * Abs(d)
  {
    var r := TruncRemainder(n * 4096, d);
  }

  // What is stored without saturation is within two units of the last place of
  // the exact Q12 quotient, however far both operands were shifted.
  lemma QuotientIsClose(numerator: int, determinant: int)
    requires determinant != 0 && Abs(numerator) <= FIT && Abs(determinant) <= FIT
    requires BitLength(Abs(numerator)) - BitLength(Abs(determinant)) < 9
    ensures Abs(Quotient(numerator, determinant) * determinant - 4096 * numerator) < 2 * Abs(determinant)
  {
    var shift := Max(Max(1 + BitLength(Abs(numerator)), 1 + BitLength(Abs(determinant))) - 32, 0);
    var s, t := ShiftRight(numerator, shift), ShiftRight(determinant, shift);
    QuotientIsTotal(numerator, determinant, shift);
    assert Quotient(numerator, determinant) == TruncDiv(s * 4096, t);
    if shift == 0 {
      CloseUnshifted(numerator, determinant);
    } else {
      ShiftIsFloor(numerator, shift);
      ShiftIsFloor(determinant, shift);
      LongDeterminant(numerator, determinant, shift);
      CloseAfterShift(numerator, determinant, Pow2(shift), s, t, TruncDiv(s * 4096, t));
    }
  }

  // While both operands fit 31 bits the quotient is exact.
  lemma SmallQuotientIsExact(numerator: int, determinant: int)
    requires determinant != 0
    requires BitLength(Abs(numerator)) <= 31 && BitLength(Abs(determinant)) <= 31
    requires BitLength(Abs(numerator)) - BitLength(Abs(determinant)) < 9
    ensures Quotient(numerator, determinant) == TruncDiv(numerator * 4096, determinant)
  {
  }

  method SolveOne(numerator: int, determinant: int, determinantBits: nat) returns (q: i32)
    requires determinant != 0 && Abs(numerator) <= FIT && Abs(determinant) <= FIT
    requires determinantBits == 1 + BitLength(Abs(determinant))
    ensures q == Quotient(numerator, determinant)
  {
    var bits := CountBits(numerator);
    if bits - determinantBits >= 9 {
      q := SATURATED;
    } else {
      var common := if bits < determinantBits then determinantBits else bits;
      var shift := if common > 32 then common - 32 else 0;
      q := Divide(numerator, determinant, shift);
    }
  }

  // Both operands are cut to 32 bits before the division.
  method Divide(numerator: int, determinant: int, shift: nat) returns (q: i32)
    requires determinant != 0 && Abs(numerator) <= FIT && Abs(determinant) <= FIT
    requires BitLength(Abs(numerator)) - BitLength(Abs(determinant)) < 9
    requires shift == Max(Max(1 + BitLength(Abs(numerator)), 1 + BitLength(Abs(determinant))) - 32, 0)
    ensures q == Quotient(numerator, determinant)
  {
    QuotientIsTotal(numerator, determinant, shift);
    OperandFits(numerator, shift);
    OperandFits(determinant, shift);
    var dividend: i64, divisor: i32 := ShiftRight(numerator, shift) * 4096, ShiftRight(determinant, shift);
    q := TruncDiv(dividend, divisor);
  }

  // Zero offsets for a singular system, otherwise a quotient per coordinate.
  method SolveQ12(h: Hessian, g: Vector) returns (x: i32, y: i32, z: i32)
    requires SmallEntries(g)
    ensures h.Determinant() == 0 ==> x == 0 && y == 0 && z == 0
    ensures h.Determinant() != 0 ==>
      x == Quotient(Numerators(h, g).x, h.Determinant()) && y == Quotient(Numerators(h, g).y, h.Determinant())
      && z == Quotient(Numerators(h, g).z, h.Determinant())
  {
    var determinant := h.Determinant();
    if determinant == 0 { return 0, 0, 0; }
    var n := Numerators(h, g);
    RangesFit(h, g);
    var bits := CountBits(determinant);
    x := SolveOne(n.x, determinant, bits);
    y := SolveOne(n.y, determinant, bits);
    z := SolveOne(n.z, determinant, bits);
  }
}
