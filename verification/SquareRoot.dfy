// Integer square roots, bit by bit: exact for 32-bit values, and for 64-bit
// values exactly as far as the doubled partial root fits 32 bits.
module SquareRoot {
  import opened Words
  import opened Arithmetic

  function Square(x: int): int { x * x }

  ghost predicate IsRoot(r: nat, v: nat) { Square(r) <= v < Square(r + 1) }

  // A root settled down to multiples of `unit`, capped below `limit`.
  ghost predicate Partial(v: int, remaining: int, root: nat, unit: nat, limit: nat) {
    && remaining >= 0 && Square(root) + remaining == v && root + unit <= limit
    && (v < Square(root + unit) || root + unit == limit)
  }

  lemma SquareOfSum(a: int, b: int)
    ensures Square(a + b) == Square(a) + b * (b + 2 * a)
  {
  }

  lemma SquareMonotone(a: nat, b: nat)
    requires a <= b
    ensures Square(a) <= Square(b)
  {
    assert a * a <= a * b <= b * b;
  }

  // One bit more.
  lemma Refine(v: int, remaining: int, root: nat, bit: nat, limit: nat, trial: int)
    requires bit > 0 && Partial(v, remaining, root, 2 * bit, limit) && trial == bit * (bit + 2 * root)
    ensures 0 <= trial < Square(limit)
    ensures trial <= remaining ==> Partial(v, remaining - trial, root + bit, bit, limit)
    ensures trial > remaining ==> Partial(v, remaining, root, bit, limit)
  {
    SquareOfSum(root, bit);
    SquareMonotone(root + bit, limit - 1);
    SquareOfSum(limit - 1, 1);
    assert Square(root) >= 0;
  }

  lemma UniqueRoot(a: nat, b: nat, v: nat)
    requires IsRoot(a, v) && IsRoot(b, v)
    ensures a == b
  {
    if a < b { SquareMonotone(a + 1, b); } else if b < a { SquareMonotone(b + 1, a); }
  }

  lemma OnlyRoot(r: nat, v: nat)
    requires IsRoot(r, v)
    ensures forall s: nat :: IsRoot(s, v) ==> s == r
  {
    forall s: nat | IsRoot(s, v) ensures s == r { UniqueRoot(s, r, v); }
  }

  method Isqrt32(value: u32) returns (result: u32)
    ensures forall r: nat :: IsRoot(r, value) <==> r == result
  {
    if value < 2 {
      OnlyRoot(value, value);
      return value;
    }
    var rest: int, bit: nat, shift: nat := value, 0x8000, 15;
    result := 0;
    WidePowers();
    while bit != 0
      invariant bit != 0 ==> bit == Pow2(shift) && shift <= 15
      invariant Partial(value, rest, result, if bit == 0 then 1 else 2 * bit, 0x1_0000)
      decreases bit
    {
      var trial := Trial32(value, rest, result, bit, shift);
      if trial <= rest {
        result := result + bit;
        rest := rest - trial;
      }
      bit, shift := HalfBit(bit, shift);
    }
    OnlyRoot(result, value);
  }

  lemma WidePowers()
    ensures Pow2(15) == 0x8000 && Pow2(31) == TOP
  {
    assert Pow2(1) == 2 && Pow2(2) == 4 && Pow2(3) == 8;
    PowOfSum(3, 2);
    PowOfSum(5, 5);
    PowOfSum(10, 5);
    PowOfSum(15, 15);
    PowOfSum(30, 1);
  }

  lemma Reorder(bit: nat, root: nat, power: nat)
    requires power == bit
    ensures (root * 2 + bit) * power == bit * (bit + 2 * root)
  {
  }

  // The shifted trial value does not wrap.
  method Trial32(ghost value: u32, rest: int, root: nat, bit: nat, shift: nat) returns (trial: nat)
    requires Partial(value, rest, root, 2 * bit, 0x1_0000) && bit == Pow2(shift)
    ensures trial <= rest ==> Partial(value, rest - trial, root + bit, bit, 0x1_0000)
    ensures trial > rest ==> Partial(value, rest, root, bit, 0x1_0000)
  {
    var shifted := (root * 2 + bit) * Pow2(shift);
    Reorder(bit, root, Pow2(shift));
    Refine(value, rest, root, bit, 0x1_0000, shifted);
    trial := WrapU32(shifted);
    Small(shifted, 0x1_0000_0000);
  }

  lemma Small(x: int, modulus: int)
    requires 0 <= x < modulus
    ensures x % modulus == x
  {
  }

  method HalfBit(bit: nat, shift: nat) returns (bit': nat, shift': nat)
    requires bit == Pow2(shift)
    ensures bit' == bit / 2 && bit' < bit
            && (if bit' == 0 then bit == 1 else bit == 2 * bit' && bit' == Pow2(shift') && shift' < shift)
  {
    assert shift > 0 ==> bit == 2 * Pow2(shift - 1);
    bit' := bit / 2;
    shift' := if shift == 0 then 0 else shift - 1;
  }

  const TOP: nat := 0x8000_0000

  // What the 64-bit loop computes: the top bit, then the root of the rest.
  ghost predicate Computed(r: nat, v: nat) {
    if v < Square(TOP) then IsRoot(r, v)
    else r >= TOP && CappedRoot(r - TOP, v - Square(TOP))
  }

  ghost predicate CappedRoot(r: nat, v: nat) {
    r < TOP && Square(r) <= v && (v < Square(r + 1) || r == TOP - 1)
  }

  ghost predicate Progress(v: nat, rest: int, result: nat, unit: nat, top: nat) {
    if unit == 2 * TOP then rest == v && result == 0 && top == 0
    else
      && unit <= TOP && top <= result && (top == 0 || top == TOP) && (top == 0 <==> v < Square(TOP))
      && Partial(v - Square(top), rest, result - top, unit, TOP)
  }

  lemma FirstBit(v: nat)
    ensures v < Square(TOP) ==> Progress(v, v, 0, TOP, 0)
    ensures v >= Square(TOP) ==> Progress(v, v - Square(TOP), TOP, TOP, TOP)
  {
  }

  method Isqrt64(value: u64) returns (result: u32)
    ensures Computed(result, value)
  {
    if value < 2 { return value; }
    var rest: int, bit: nat, shift: nat, root: nat := value, TOP, 31, 0;
    ghost var top: nat := 0;
    WidePowers();
    while bit != 0
      invariant bit != 0 ==> bit == Pow2(shift) && bit <= TOP
      invariant Progress(value, rest, root, if bit == 0 then 1 else 2 * bit, top)
      decreases bit
    {
      var trial: nat;
      trial, top := Trial(value, rest, root, bit, shift, top);
      if trial <= rest {
        root := root + bit;
        rest := rest - trial;
      }
      bit, shift := HalfBit(bit, shift);
    }
    result := root;
  }

  // The trial value; doubling the partial root drops its top bit.
  method Trial(ghost value: nat, rest: int, root: nat, bit: nat, shift: nat, ghost top: nat)
    returns (trial: nat, ghost top': nat)
    requires Progress(value, rest, root, 2 * bit, top) && bit == Pow2(shift) && bit <= TOP
    ensures trial <= rest ==> Progress(value, rest - trial, root + bit, bit, top')
    ensures trial > rest ==> Progress(value, rest, root, bit, top')
  {
    var doubled := WrapU32(root * 2);
    var shifted := (doubled + bit) * Pow2(shift);
    trial := WrapU64(shifted);
    if bit == TOP {
      FirstBit(value);
      top' := if value < Square(TOP) then 0 else TOP;
    } else {
      top' := top;
      DroppedTop(root, top);
      Reorder(bit, root - top, Pow2(shift));
      Refine(value - Square(top), rest, root - top, bit, TOP, shifted);
      Small(shifted, 0x1_0000_0000_0000_0000);
    }
  }

  lemma DroppedTop(root: nat, top: nat)
    requires top == 0 || top == TOP
    requires top <= root < top + TOP
    ensures WrapU32(root * 2) as int == 2 * (root - top)
  {
  }

  // The 64-bit result is the integer square root of its argument exactly for
  // arguments up to 2^62 and for the few whose root is the largest.
  lemma ExactDomain(r: nat, v: u64)
    requires Computed(r, v)
    ensures IsRoot(r, v) <==> v <= Square(TOP) || v >= Square(2 * TOP - 1)
  {
    if v >= Square(TOP) {
      var y := r - TOP;
      SquareOfSum(TOP, y);
      SquareOfSum(y, 1);
      SquareOfSum(r, 1);
      if y < TOP - 1 && y > 0 {
        assert y * (y + 2 * TOP) > Square(y) + 2 * y;
      }
    }
  }
}
