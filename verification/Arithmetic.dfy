// Facts about products, quotients, powers of two and set sizes that several
// modules share.
module Arithmetic {
  import opened Words

  function Pow2(n: nat): (p: nat)
    ensures p > 0
  {
    if n == 0 then 1 else 2 * Pow2(n - 1)
  }

  lemma PowOfSum(a: nat, b: nat)
    ensures Pow2(a + b) == Pow2(a) * Pow2(b)
    decreases a
  {
    if a > 0 {
      PowOfSum(a - 1, b);
      assert Pow2(a + b) == 2 * Pow2(a - 1 + b);
      assert 2 * (Pow2(a - 1) * Pow2(b)) == (2 * Pow2(a - 1)) * Pow2(b);
    }
  }

  lemma {:induction false} PowMonotone(a: nat, b: nat)
    requires a <= b
    ensures Pow2(a) <= Pow2(b)
  {
    PowOfSum(a, b - a);
    assert Pow2(a) * Pow2(b - a) >= Pow2(a);
  }

  // No multiple of p other than zero lies strictly between -p and p.
  lemma NoMultiple(p: nat, d: int)
    requires -(p as int) < p * d < p
    ensures d == 0
  {
    assert d >= 1 ==> p * (d - 1) >= 0;
    assert d <= -1 ==> p * (d + 1) <= 0;
  }

  lemma QuotientIs(value: int, p: nat, q: int, r: nat)
    requires r < p && value == p * q + r
    ensures value / p == q
  {
    var q', r' := value / p, value % p;
    assert value == p * q' + r';
    assert p * (q - q') == r' - r;
    NoMultiple(p, q - q');
  }

  lemma ModShift(x: int, k: int, m: nat)
    requires m > 0
    ensures (x + k * m) % m == x % m
  {
    var q, r := x / m, x % m;
    assert x + k * m == m * (q + k) + r;
    QuotientIs(x + k * m, m, q + k, r);
  }

  lemma PositiveFactor(p: nat, x: int)
    requires p * x > 0
    ensures x > 0
  {
    assert x <= 0 ==> p * x <= 0;
  }

  lemma FloorAtMost(x: int, p: nat, d: int)
    requires p > 0 && x <= p * d
    ensures x / p <= d
  {
    var q := x / p;
    assert p * q <= x;
    assert p * (d + 1 - q) == p * d - p * q + p;
    PositiveFactor(p, d + 1 - q);
  }

  lemma AbsProduct(a: int, b: int)
    ensures Abs(a * b) == Abs(a) * Abs(b)
  {
  }

  lemma ProductAtMost(a: nat, b: nat, m: nat, n: nat)
    requires a <= m && b <= n
    ensures 0 <= a * b <= m * n
  {
    assert a * b <= m * b <= m * n;
  }

  lemma ProductBound(a: int, b: int, m: nat, n: nat)
    requires Abs(a) <= m && Abs(b) <= n
    ensures Abs(a * b) <= m * n
  {
    AbsProduct(a, b);
    ProductAtMost(Abs(a), Abs(b), m, n);
  }

  lemma OneMore(n: nat, x: int)
    requires n > 0
    ensures n * x == (n - 1) * x + x
  {
  }

  // Wrapping moves a value by a multiple of 2^32, and such a move does not
  // show in the wrapped value.
  lemma WrapMoves(x: int) returns (k: int)
    ensures WrapI32(x) as int == x + k * 0x1_0000_0000
  {
    k := -((x + 0x8000_0000) / 0x1_0000_0000);
  }

  lemma WrapSame(x: int, k: int)
    ensures WrapI32(x + k * 0x1_0000_0000) == WrapI32(x)
  {
    ModShift(x + 0x8000_0000, k, 0x1_0000_0000);
  }

  // Wrapping a summand first does not change the wrapped sum.
  lemma WrapAdd(a: int, b: int)
    ensures WrapU32(WrapU32(a) as int + b) == WrapU32(a + b)
  {
  }

  lemma SubsetSize<T>(a: set<T>, b: set<T>)
    requires a <= b
    ensures |a| <= |b|
  {
    assert b == a + (b - a);
  }
}
