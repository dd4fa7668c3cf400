// The weights of the orientation window are Gaussian: 512 over the fifth
// Taylor sum of the exponential.
module GaussianLaws {
  import opened Words
  import opened Orientation

  // The coefficient is 2^31 over the square of the deviation in Q16, which is one
  // and a half scales: by it the squared radius becomes half its ratio to the
  // variance.
  lemma CoefficientIs(half: nat, square: nat)
    requires 0 < half && 12 * half < 0x8000_0000 && square == (3 * half) * (3 * half) && square >= 0x1_0000
    ensures Coefficient(2 * half) * square <= 0x8000_0000_0000 < (Coefficient(2 * half) + 1) * square
  {
    var q := 0x8000_0000_0000 / square;
    assert q * square <= 0x8000_0000_0000 < (q + 1) * square;
    QuotientSmall(square, q);
    assert WrapI32(2 * half * 6) as int / 4 == 3 * half;
  }

  lemma QuotientSmall(square: nat, q: nat)
    requires square >= 0x1_0000 && q * square <= 0x8000_0000_0000
    ensures q <= 0x8000_0000
  {
    if q > 0x8000_0000 { Arithmetic.ProductAtMost(0x8000_0001, 0x1_0000, q, square); }
  }

  // 1 + x + x^2 / 2 + x^3 / 6 + x^4 / 24 + x^5 / 120.
  function Taylor(x: real): real {
    1.0 + x * (1.0 + x / 2.0 * (1.0 + x / 3.0 * (1.0 + x / 4.0 * (1.0 + x / 5.0))))
  }

  // The two halves of the sum that the source computes apart.
  function Sixth(x: real): real { x / 6.0 + 0.5 }
  function Fifth(x: real): real { x / 5.0 + 1.0 }

  lemma TaylorSplits(x: real, x2: real, x4: real)
    requires x2 == x * x && x4 == x2 * x2
    ensures Taylor(x) == 1.0 + x + x2 * Sixth(x) + x4 * Fifth(x) / 24.0
  {
    assert x2 * (x / 6.0) == x * x2 / 6.0;
    assert x4 * (x / 5.0) == x * x4 / 5.0;
    assert x * x2 * x == x4;
  }

  // A product of two approximations from below.
  lemma ProductFromBelow(a: real, b: real, a': real, b': real, g: real, d: real)
    requires 0.0 <= a' <= a && 0.0 <= b' <= b && a - a' <= g && b - b' <= d
    ensures a * b - a * d - g * b <= a' * b' <= a * b
  {
    assert a * b - a' * b' == a * (b - b') + (a - a') * b';
    assert 0.0 <= a * (b - b') <= a * d;
    assert 0.0 <= (a - a') * b' <= (a - a') * b <= g * b;
  }

  // The square of the shifted argument and its own square.
  lemma SquareFromBelow(s: u32, x: real, x2: real)
    requires s < CUTOFF && s as real == 65536.0 * x && x2 == x * x
    ensures 65536.0 * x2 - 512.0 * x <= Squared(s / 0x100) as real <= 65536.0 * x2
  {
    var u := s / 0x100;
    SquaredAtMost(u, 1774);
    assert (u * u) as real == u as real * u as real;
    ProductFromBelow(256.0 * x, 256.0 * x, u as real, u as real, 1.0, 1.0);
    assert (256.0 * x) * (256.0 * x) == 65536.0 * x2;
  }

  lemma FourthFromBelow(square: u32, x: real, x2: real, x4: real)
    requires square <= 1774 * 1774 && 0.0 <= x && 0.0 <= x2 && x4 == x2 * x2
    requires 65536.0 * x2 - 512.0 * x <= square as real <= 65536.0 * x2
    ensures 256.0 * x4 - 2.0 * x2 * (2.0 * x + 1.0) - 1.0 <= Fourth(square) as real <= 256.0 * x4
  {
    var h := square / 0x100;
    SquaredAtMost(h, 12293);
    assert (h * h) as real == h as real * h as real;
    ProductFromBelow(256.0 * x2, 256.0 * x2, h as real, h as real, 2.0 * x + 1.0, 2.0 * x + 1.0);
    assert (256.0 * x2) * (256.0 * x2) == 65536.0 * x4;
    assert (256.0 * x2) * (2.0 * x + 1.0) == 128.0 * (2.0 * x2 * (2.0 * x + 1.0));
    assert (2.0 * x + 1.0) * (256.0 * x2) == 128.0 * (2.0 * x2 * (2.0 * x + 1.0));
  }

  lemma TermsFromBelow(s: u32, x: real)
    requires s < CUTOFF && s as real == 65536.0 * x
    ensures 256.0 * Fifth(x) - 2.0 <= TermA(s) as real <= 256.0 * Fifth(x)
    ensures 256.0 * Sixth(x) - 2.0 <= TermB(s) as real <= 256.0 * Sixth(x)
  {
    NoWrap(s / 5 + 0x1_0000);
    NoWrap(s / 6 + 0x8000);
  }

  lemma PartAFromBelow(fourth: u32, term: u32, x: real, x2: real, x4: real)
    requires 0.0 <= x && 0.0 <= x2 && 0.0 <= x4 && fourth <= 590_304 && term <= 610
    requires 256.0 * x4 - 2.0 * x2 * (2.0 * x + 1.0) - 1.0 <= fourth as real <= 256.0 * x4
    requires 256.0 * Fifth(x) - 2.0 <= term as real <= 256.0 * Fifth(x)
    ensures var exact := 512.0 * (x4 * Fifth(x) / 24.0);
            exact - x4 / 6.0 - (2.0 * x2 * (2.0 * x + 1.0) + 1.0) * Fifth(x) / 12.0 - 1.0
              <= PartA(fourth, term) as real <= exact
  {
    Arithmetic.ProductAtMost(fourth, term, 590_304, 610);
    NoWrap(fourth * term);
    assert (fourth * term) as real == fourth as real * term as real;
    var g := 2.0 * x2 * (2.0 * x + 1.0) + 1.0;
    ProductFromBelow(256.0 * x4, 256.0 * Fifth(x), fourth as real, term as real, g, 2.0);
    assert (256.0 * x4) * (256.0 * Fifth(x)) == 65536.0 * (x4 * Fifth(x));
    assert g * (256.0 * Fifth(x)) == 256.0 * (g * Fifth(x));
  }

  lemma PartBFromBelow(square: u32, term: u32, x: real, x2: real)
    requires 0.0 <= x && 0.0 <= x2 && square <= 1774 * 1774 && term <= 423
    requires 65536.0 * x2 - 512.0 * x <= square as real <= 65536.0 * x2
    requires 256.0 * Sixth(x) - 2.0 <= term as real <= 256.0 * Sixth(x)
    ensures var exact := 512.0 * (x2 * Sixth(x));
            exact - 4.0 * x2 - 4.0 * (x * Sixth(x)) - 1.0 <= PartB(square, term) as real <= exact
  {
    Arithmetic.ProductAtMost(term, square, 423, 1774 * 1774);
    NoWrap(term * square);
    assert (term * square) as real == square as real * term as real;
    ProductFromBelow(65536.0 * x2, 256.0 * Sixth(x), square as real, term as real, 512.0 * x, 2.0);
    assert (65536.0 * x2) * (256.0 * Sixth(x)) == 16777216.0 * (x2 * Sixth(x));
    assert (512.0 * x) * (256.0 * Sixth(x)) == 131072.0 * (x * Sixth(x));
  }

  // What truncation loses in all is small beside the sum.
  lemma LossIsSmall(x: real, x2: real, x4: real)
    requires 0.0 <= x && x2 == x * x && x4 == x2 * x2
    ensures x4 / 6.0 + (2.0 * x2 * (2.0 * x + 1.0) + 1.0) * Fifth(x) / 12.0 + 4.0 * x2 + 4.0 * (x * Sixth(x)) + 3.0
         <= 10.0 * Taylor(x)
  {
    TaylorSplits(x, x2, x4);
    var x3 := x2 * x;
    assert x3 >= 0.0 && x2 >= 0.0 && x4 >= 0.0;
    assert x3 * x == x4 && x4 * x >= 0.0;
    assert 2.0 * x2 * (2.0 * x + 1.0) == 4.0 * x3 + 2.0 * x2;
    assert (4.0 * x3 + 2.0 * x2 + 1.0) * Fifth(x) == 0.8 * x4 + 0.4 * x3 + 0.2 * x + 4.0 * x3 + 2.0 * x2 + 1.0;
    assert x * Sixth(x) == x2 / 6.0 + 0.5 * x;
    assert x2 * Sixth(x) == x3 / 6.0 + 0.5 * x2;
    assert x4 * Fifth(x) == (x4 * x) / 5.0 + x4;
  }

  // The divisor is 512 times the Taylor sum at scaled / 2^16, from below and
  // within two per cent.
  lemma PolynomialIsTaylor(s: u32, x: real)
    requires s < CUTOFF && s as real == 65536.0 * x
    ensures 502.0 * Taylor(x) <= Polynomial(s) as real <= 512.0 * Taylor(x)
  {
    var x2 := x * x;
    var x4 := x2 * x2;
    var square := Squared(s / 0x100);
    SquaredAtMost(s / 0x100, 1774);
    SquareFromBelow(s, x, x2);
    FourthFromBelow(square, x, x2, x4);
    TermsFromBelow(s, x);
    TermsAtMost(s);
    SquaredAtMost(square / 0x100, 12293);
    PartAFromBelow(Fourth(square), TermA(s), x, x2, x4);
    PartBFromBelow(square, TermB(s), x, x2);
    PartsAtMost(square, TermA(s), TermB(s));
    PolynomialIs(s, square);
    TaylorSplits(x, x2, x4);
    LossIsSmall(x, x2, x4);
  }

  lemma PolynomialIs(s: u32, square: u32)
    requires s < CUTOFF && square == Squared(s / 0x100)
    requires PartA(Fourth(square), TermA(s)) <= 120_000 && PartB(square, TermB(s)) <= 41_000
    ensures Polynomial(s) as int
         == PartA(Fourth(square), TermA(s)) as int + 0x200 + PartB(square, TermB(s)) as int + s / 0x80
  {
    NoWrap(PartA(Fourth(square), TermA(s)) as int + 0x200 + PartB(square, TermB(s)) as int + s / 0x80);
  }

  // Rounded division.
  lemma Rounded(p: nat, w: nat)
    requires p > 0 && w == (p / 2 + 0x4_0000) / p
    ensures 2 * (p * w) - p <= 0x8_0000 <= 2 * (p * w) + p
  {
    var x := p / 2 + 0x4_0000;
    var r := x % p;
    assert x == p * w + r;
  }

  lemma Reciprocal(w: real, p: real, t: real)
    requires 0.0 <= w && 0.0 < t && 502.0 * t <= p <= 512.0 * t
    requires 2.0 * (p * w) - p <= 524288.0 <= 2.0 * (p * w) + p
    ensures (w - 0.5) * t <= 523.0 && 512.0 <= (w + 0.5) * t
  {
    var low, high := w - 0.5, w + 0.5;
    assert low * p == p * w - 0.5 * p && high * p == p * w + 0.5 * p;
    assert high * (512.0 * t - p) >= 0.0;
    assert high * (512.0 * t) == 512.0 * (high * t);
    if low >= 0.0 {
      assert low * (p - 502.0 * t) >= 0.0;
      assert low * (502.0 * t) == 502.0 * (low * t);
    } else {
      assert low * t <= 0.0;
    }
  }

  lemma TaylorPositive(x: real)
    requires 0.0 <= x
    ensures Taylor(x) >= 1.0
  {
    var x2 := x * x;
    var x4 := x2 * x2;
    TaylorSplits(x, x2, x4);
    assert x2 * Sixth(x) >= 0.0 && x4 * Fifth(x) >= 0.0;
  }

  // A weight of 512 over t, within one half and two per cent.
  ghost predicate Near(w: nat, t: real) { (w as real - 0.5) * t <= 523.0 && 512.0 <= (w as real + 0.5) * t }

  lemma RoundedReciprocal(p: nat, w: nat, t: real)
    requires p > 0 && w == (p / 2 + 0x4_0000) / p && t > 0.0
    requires 502.0 * t <= p as real <= 512.0 * t
    ensures Near(w, t)
  {
    Rounded(p, w);
    RealProduct(p, w);
    Reciprocal(w as real, p as real, t);
  }

  lemma RealProduct(p: nat, w: nat)
    ensures (p * w) as real == p as real * w as real
  {
  }

  lemma WeightIs(s: u32)
    requires s < CUTOFF
    ensures Polynomial(s) > 0 && Weight(s) as int == (Polynomial(s) / 2 + 0x4_0000) / Polynomial(s)
  {
    PolynomialInRange(s);
  }

  lemma NearTaylor(p: nat, w: nat, x: real)
    requires p > 0 && w == (p / 2 + 0x4_0000) / p && x >= 0.0
    requires 502.0 * Taylor(x) <= p as real <= 512.0 * Taylor(x)
    ensures Near(w, Taylor(x))
  {
    TaylorPositive(x);
    RoundedReciprocal(p, w, Taylor(x));
  }

  // A weight is 512 over the Taylor sum of the exponential, within one half and
  // two per cent.
  lemma WeightIsGaussian(s: u32, x: real)
    requires s < CUTOFF && s as real == 65536.0 * x
    ensures Near(Weight(s), Taylor(x))
  {
    PolynomialIsTaylor(s, x);
    WeightIs(s);
    NearTaylor(Polynomial(s), Weight(s), x);
  }
}
