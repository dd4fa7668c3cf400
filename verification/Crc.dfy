// The CRC-32 of section 8 of RFC 1952 and its power to expose bursts of
// errors. A register is its list of bits, lowest bit first.
module Crc {
  import opened Words
  import opened Arithmetic

  type Bits = seq<bool>

  const WIDTH: nat := 32

  // 0xedb88320 by octet, lowest bit first.
  const OCTET0: Bits := [false, false, false, false, false, true, false, false]
  const OCTET1: Bits := [true, true, false, false, false, false, false, true]
  const OCTET2: Bits := [false, false, false, true, true, true, false, true]
  const OCTET3: Bits := [true, false, true, true, false, true, true, true]
  const POLYNOMIAL: Bits := OCTET0 + (OCTET1 + (OCTET2 + OCTET3))

  function Xor(a: Bits, b: Bits): (c: Bits)
    requires |a| == |b|
    ensures |c| == |a| && forall i :: 0 <= i < |a| ==> c[i] == (a[i] != b[i])
  {
    seq(|a|, i requires 0 <= i < |a| => a[i] != b[i])
  }

  function Falses(n: nat): (c: Bits)
    ensures |c| == n && forall i :: 0 <= i < n ==> !c[i]
  {
    seq(n, _ => false)
  }

  // One place down; when the bit that falls out is set, the polynomial is
  // combined in.
  function Shift(r: Bits): (t: Bits)
    requires |r| == WIDTH
    ensures |t| == WIDTH
    ensures forall i :: 0 <= i < WIDTH ==> t[i] == ((i + 1 < WIDTH && r[i + 1]) != (r[0] && POLYNOMIAL[i]))
  {
    var moved := r[1..] + [false];
    if r[0] then Xor(moved, POLYNOMIAL) else moved
  }

  function Shifts(r: Bits, n: nat): (t: Bits)
    requires |r| == WIDTH
    ensures |t| == WIDTH
    decreases n
  {
    if n == 0 then r else Shifts(Shift(r), n - 1)
  }

  function ToBits(v: nat, n: nat): (b: Bits)
    ensures |b| == n
    decreases n
  {
    if n == 0 then [] else [v % 2 == 1] + ToBits(v / 2, n - 1)
  }

  function OfBits(b: Bits): nat {
    if b == [] then 0 else (if b[0] then 1 else 0) + 2 * OfBits(b[1..])
  }

  lemma {:induction false} OfBitsInverts(v: nat, n: nat)
    requires v < Pow2(n)
    ensures OfBits(ToBits(v, n)) == v
    decreases n
  {
    if n > 0 {
      OfBitsInverts(v / 2, n - 1);
      assert ToBits(v, n)[1..] == ToBits(v / 2, n - 1);
    }
  }

  lemma {:induction false} ToBitsInverts(b: Bits)
    ensures ToBits(OfBits(b), |b|) == b && OfBits(b) < Pow2(|b|)
    decreases |b|
  {
    if b != [] {
      ToBitsInverts(b[1..]);
      assert OfBits(b) / 2 == OfBits(b[1..]);
    }
  }

  // One byte: xor it into the low bits, then shift eight times.
  function Absorb(r: Bits, b: u8): (t: Bits)
    requires |r| == WIDTH
    ensures |t| == WIDTH
  {
    Shifts(Xor(r, ToBits(b, 8) + Falses(WIDTH - 8)), 8)
  }

  function Register(s: seq<u8>): (r: Bits)
    ensures |r| == WIDTH
  {
    if s == [] then seq(WIDTH, _ => true) else Absorb(Register(s[..|s| - 1]), s[|s| - 1])
  }

  function Complement(r: Bits): (c: Bits)
    ensures |c| == |r| && forall i :: 0 <= i < |r| ==> c[i] == !r[i]
  {
    seq(|r|, i requires 0 <= i < |r| => !r[i])
  }

  // The complemented register read as a number.
  function Value(r: Bits): (c: u32)
    requires |r| == WIDTH
  {
    ToBitsInverts(Complement(r));
    Pow2Width();
    OfBits(Complement(r))
  }

  function Crc32(s: seq<u8>): (c: u32) { Value(Register(s)) }

  lemma Pow2Width()
    ensures Pow2(8) == 0x100 && Pow2(WIDTH) == 0x1_0000_0000
  {
    assert Pow2(8) == 0x100;
    assert Pow2(16) == 0x1_0000;
    assert Pow2(24) == 0x100_0000;
  }

  lemma DoubleProduct(x: nat, y: nat)
    ensures 2 * (x * y) == (2 * x) * y
  {
  }

  lemma {:induction false} OfBitsSplits(a: Bits, b: Bits)
    ensures OfBits(a + b) == OfBits(a) + Pow2(|a|) * OfBits(b)
    decreases |a|
  {
    if a == [] {
      assert a + b == b;
    } else {
      OfBitsSplits(a[1..], b);
      assert (a + b)[1..] == a[1..] + b;
      DoubleProduct(Pow2(|a| - 1), OfBits(b));
    }
  }

  lemma {:induction false} OctetNumber(b: Bits)
    requires |b| == 8
    ensures OfBits(b) == Octet(b)
  {
    var four, five, six, seven := b[4..], b[5..], b[6..], b[7..];
    assert seven[1..] == [] && six[1..] == seven && five[1..] == six && four[1..] == five;
    var three, two, one := b[3..], b[2..], b[1..];
    assert three[1..] == four && two[1..] == three && one[1..] == two;
    assert OfBits(seven) == Digit(b[7]);
    assert OfBits(six) == Digit(b[6]) + 2 * OfBits(seven);
    assert OfBits(five) == Digit(b[5]) + 2 * OfBits(six);
    assert OfBits(four) == Digit(b[4]) + 2 * OfBits(five);
    assert OfBits(three) == Digit(b[3]) + 2 * OfBits(four);
    assert OfBits(two) == Digit(b[2]) + 2 * OfBits(three);
    assert OfBits(one) == Digit(b[1]) + 2 * OfBits(two);
  }

  function Digit(b: bool): nat { if b then 1 else 0 }

  function Octet(b: Bits): nat
    requires |b| == 8
  {
    Digit(b[0]) + 2 * Digit(b[1]) + 4 * Digit(b[2]) + 8 * Digit(b[3])
    + 16 * Digit(b[4]) + 32 * Digit(b[5]) + 64 * Digit(b[6]) + 128 * Digit(b[7])
  }

  lemma {:induction false} OctetsNumber(a: Bits, b: Bits, c: Bits, d: Bits)
    requires |a| == |b| == |c| == |d| == 8
    ensures OfBits(a + (b + (c + d))) == Octet(a) + 0x100 * (Octet(b) + 0x100 * (Octet(c) + 0x100 * Octet(d)))
  {
    Pow2Width();
    OfBitsSplits(c, d);
    OfBitsSplits(b, c + d);
    OfBitsSplits(a, b + (c + d));
    OctetNumber(a);
    OctetNumber(b);
    OctetNumber(c);
    OctetNumber(d);
  }

  // The polynomial of section 8 of RFC 1952.
  lemma {:induction false} PolynomialNumber(a: Bits, b: Bits, c: Bits, d: Bits)
    requires a == OCTET0 && b == OCTET1 && c == OCTET2 && d == OCTET3
    ensures OfBits(a + (b + (c + d))) == 0xedb8_8320
  {
    OctetsNumber(a, b, c, d);
    assert Octet(a) == 0x20 && Octet(b) == 0x83 && Octet(c) == 0xb8 && Octet(d) == 0xed;
  }

  lemma {:induction false} NumberOfFalses(b: Bits)
    requires forall i :: 0 <= i < |b| ==> !b[i]
    ensures OfBits(b) == 0
    decreases |b|
  {
    if b != [] { NumberOfFalses(b[1..]); }
  }

  // The checksum of no bytes.
  lemma EmptyCrc()
    ensures Crc32([]) == 0
  {
    NumberOfFalses(Complement(Register([])));
  }

  // ---------- the register step is injective ----------

  lemma ShiftInjective(a: Bits, b: Bits)
    requires |a| == |b| == WIDTH && Shift(a) == Shift(b)
    ensures a == b
  {
    assert POLYNOMIAL[31];
    assert Shift(a)[31] == a[0] && Shift(b)[31] == b[0];
    forall i | 0 <= i < WIDTH ensures a[i] == b[i] {
      if i > 0 { assert Shift(a)[i - 1] == Shift(b)[i - 1]; }
    }
  }

  lemma {:induction false} ShiftsInjective(a: Bits, b: Bits, n: nat)
    requires |a| == |b| == WIDTH && Shifts(a, n) == Shifts(b, n)
    ensures a == b
    decreases n
  {
    if n > 0 {
      var a', b' := Shift(a), Shift(b);
      ShiftsInjective(a', b', n - 1);
      ShiftInjective(a, b);
    }
  }

  // ---------- bit-serial form ----------

  // Absorbing one bit: it flips the low bit before the shift.
  function Feed(r: Bits, c: bool): (t: Bits)
    requires |r| == WIDTH
    ensures |t| == WIDTH
  {
    Shift(r[0 := r[0] != c])
  }

  function FeedAll(r: Bits, bits: Bits): (t: Bits)
    requires |r| == WIDTH
    ensures |t| == WIDTH
    decreases |bits|
  {
    if bits == [] then r else FeedAll(Feed(r, bits[0]), bits[1..])
  }

  lemma FeedFirst(r: Bits, bits: Bits)
    requires |r| == WIDTH && 0 < |bits| <= WIDTH
    ensures Shift(Xor(r, bits + Falses(WIDTH - |bits|)))
         == Xor(Feed(r, bits[0]), bits[1..] + Falses(WIDTH - |bits| + 1))
  {
    var x := Xor(r, bits + Falses(WIDTH - |bits|));
    var low := r[0 := r[0] != bits[0]];
    forall i | 0 <= i < WIDTH
      ensures Shift(x)[i] == (Shift(low)[i] != (bits[1..] + Falses(WIDTH - |bits| + 1))[i])
    {
      assert x[0] == low[0];
    }
  }

  // Up to a word of bits is absorbed as one xor followed by shifts: the code's
  // byte-wise form is the case of eight bits.
  lemma {:induction false} FeedAllIsXor(r: Bits, bits: Bits)
    requires |r| == WIDTH && |bits| <= WIDTH
    ensures FeedAll(r, bits) == Shifts(Xor(r, bits + Falses(WIDTH - |bits|)), |bits|)
    decreases |bits|
  {
    if bits == [] {
      assert Xor(r, bits + Falses(WIDTH - |bits|)) == r;
    } else {
      FeedAllIsXor(Feed(r, bits[0]), bits[1..]);
      FeedFirst(r, bits);
    }
  }

  lemma {:induction false} FeedAllInjectiveInBits(r: Bits, x: Bits, y: Bits)
    requires |r| == WIDTH && |x| == |y| <= WIDTH
    requires FeedAll(r, x) == FeedAll(r, y)
    ensures x == y
  {
    FeedAllIsXor(r, x);
    FeedAllIsXor(r, y);
    var a, b := Xor(r, x + Falses(WIDTH - |x|)), Xor(r, y + Falses(WIDTH - |y|));
    ShiftsInjective(a, b, |x|);
    forall i | 0 <= i < |x| ensures x[i] == y[i] {
      assert a[i] == (r[i] != x[i]) && b[i] == (r[i] != y[i]);
    }
  }

  lemma {:induction false} FeedAllInjectiveInRegister(a: Bits, b: Bits, tail: Bits)
    requires |a| == |b| == WIDTH && FeedAll(a, tail) == FeedAll(b, tail)
    ensures a == b
    decreases |tail|
  {
    if tail != [] {
      FeedAllInjectiveInRegister(Feed(a, tail[0]), Feed(b, tail[0]), tail[1..]);
      FeedInjective(a, b, tail[0]);
    }
  }

  lemma FeedInjective(a: Bits, b: Bits, c: bool)
    requires |a| == |b| == WIDTH && Feed(a, c) == Feed(b, c)
    ensures a == b
  {
    var x, y := a[0 := a[0] != c], b[0 := b[0] != c];
    ShiftInjective(x, y);
    forall i | 0 <= i < WIDTH ensures a[i] == b[i] {
      assert x[i] == y[i];
    }
  }

  lemma {:induction false} FeedAllAppend(r: Bits, x: Bits, y: Bits)
    requires |r| == WIDTH
    ensures FeedAll(r, x + y) == FeedAll(FeedAll(r, x), y)
    decreases |x|
  {
    if x == [] {
      assert x + y == y;
    } else {
      FeedAllAppend(Feed(r, x[0]), x[1..], y);
      assert (x + y)[1..] == x[1..] + y;
    }
  }

  // Bit strings that differ only inside a window of at most 32 bits leave the
  // register in different states.
  lemma {:induction false} BurstChangesRegister(r: Bits, prefix: Bits, x: Bits, y: Bits, tail: Bits)
    requires |r| == WIDTH && |x| == |y| <= WIDTH && x != y
    ensures FeedAll(r, prefix + x + tail) != FeedAll(r, prefix + y + tail)
  {
    FeedAllAppend(r, prefix + x, tail);
    FeedAllAppend(r, prefix + y, tail);
    FeedAllAppend(r, prefix, x);
    FeedAllAppend(r, prefix, y);
    if FeedAll(r, prefix + x + tail) == FeedAll(r, prefix + y + tail) {
      FeedAllInjectiveInRegister(FeedAll(r, prefix + x), FeedAll(r, prefix + y), tail);
      FeedAllInjectiveInBits(FeedAll(r, prefix), x, y);
    }
  }

  // ---------- from bytes to bits ----------

  function Expand(s: seq<u8>, n: nat): (b: Bits)
    ensures |b| == n * |s|
  {
    if s == [] then [] else
      assert n * (|s| - 1) + n == n * |s|;
      Expand(s[..|s| - 1], n) + ToBits(s[|s| - 1], n)
  }

  function BitsOf(s: seq<u8>): (b: Bits)
    ensures |b| == 8 * |s|
  {
    Expand(s, 8)
  }

  const ONES: Bits := seq(WIDTH, _ => true)

  lemma {:induction false} RegisterIsBitSerial(s: seq<u8>)
    ensures Register(s) == FeedAll(ONES, BitsOf(s))
    decreases |s|
  {
    if s != [] {
      var n := |s| - 1;
      RegisterIsBitSerial(s[..n]);
      FeedAllIsXor(Register(s[..n]), ToBits(s[n], 8));
      FeedAllAppend(ONES, BitsOf(s[..n]), ToBits(s[n], 8));
    }
  }

  lemma {:induction false} Crc32Injective(s: seq<u8>, t: seq<u8>)
    requires Crc32(s) == Crc32(t)
    ensures Register(s) == Register(t)
  {
    ValueInjective(Register(s), Register(t));
  }

  lemma ValueInjective(r: Bits, r': Bits)
    requires |r| == |r'| == WIDTH && Value(r) == Value(r')
    ensures r == r'
  {
    var a, b := Complement(r), Complement(r');
    ToBitsInverts(a);
    ToBitsInverts(b);
    assert a == b;
    forall i | 0 <= i < WIDTH ensures r[i] == r'[i] {
      assert a[i] == b[i];
    }
  }

  // The two strings agree outside the bits k .. k + 31.
  ghost predicate DifferOnlyWithin(s: seq<u8>, t: seq<u8>, k: nat) {
    |s| == |t| && forall i :: 0 <= i < 8 * |s| && !(k <= i < k + WIDTH) ==> BitsOf(s)[i] == BitsOf(t)[i]
  }

  lemma CutAtWindow(a: Bits, b: Bits, k: nat, end: nat)
    requires |a| == |b| && k <= end <= |a| && a != b
    requires forall i :: 0 <= i < |a| && !(k <= i < end) ==> a[i] == b[i]
    ensures a == a[..k] + a[k..end] + a[end..] && b == a[..k] + b[k..end] + a[end..]
    ensures a[k..end] != b[k..end]
  {
    InThree(a, k, end);
    InThree(b, k, end);
    assert b[..k] == a[..k] && b[end..] == a[end..];
  }

  lemma InThree(a: Bits, i: nat, j: nat)
    requires i <= j <= |a|
    ensures a == a[..i] + a[i..j] + a[j..]
  {
  }

  // Every burst of errors of at most 32 bits changes the checksum.
  lemma BurstChangesCrc(s: seq<u8>, t: seq<u8>, k: nat)
    requires DifferOnlyWithin(s, t, k) && BitsOf(s) != BitsOf(t)
    ensures Crc32(s) != Crc32(t)
  {
    var a, b := BitsOf(s), BitsOf(t);
    assert k < |a|;
    var end := Min(k + WIDTH, |a|);
    CutAtWindow(a, b, k, end);
    BurstChangesRegister(ONES, a[..k], a[k..end], b[k..end], a[end..]);
    RegisterIsBitSerial(s);
    RegisterIsBitSerial(t);
    if Crc32(s) == Crc32(t) { Crc32Injective(s, t); }
  }

  lemma {:induction false} ExpandSnoc(s: seq<u8>, b: u8, n: nat)
    ensures Expand(s + [b], n) == Expand(s, n) + ToBits(b, n)
  {
    assert (s + [b])[..|s|] == s;
  }

  lemma {:induction false} ExpandAppend(s: seq<u8>, t: seq<u8>, n: nat)
    ensures Expand(s + t, n) == Expand(s, n) + Expand(t, n)
    decreases |t|
  {
    if t == [] {
      assert s + t == s;
    } else {
      var h, b := t[..|t| - 1], t[|t| - 1];
      ExpandAppend(s, h, n);
      assert s + t == s + h + [b];
      ExpandSnoc(s + h, b, n);
      Assoc(Expand(s, n), Expand(h, n), ToBits(b, n));
    }
  }

  // The bits of one byte sit at its own place.
  lemma {:induction false} ByteInPlace(s: seq<u8>, p: seq<u8>, b: u8, t: seq<u8>, n: nat)
    requires s == p + [b] + t
    ensures |Expand(p, n)| + n <= |Expand(s, n)| && Expand(s, n)[|Expand(p, n)|..|Expand(p, n)| + n] == ToBits(b, n)
  {
    ExpandAppend(p + [b], t, n);
    ExpandSnoc(p, b, n);
  }

  lemma {:induction false} ByteAt(s: seq<u8>, i: nat, n: nat)
    requires i < |s|
    ensures n * i + n <= |Expand(s, n)| && Expand(s, n)[n * i..n * i + n] == ToBits(s[i], n)
  {
    var p := s[..i];
    assert |Expand(p, n)| == n * i;
    assert s == p + [s[i]] + s[i + 1..];
    ByteInPlace(s, p, s[i], s[i + 1..], n);
  }

  lemma BitsOfByteAt(s: seq<u8>, i: nat)
    requires i < |s|
    ensures BitsOf(s)[8 * i..8 * i + 8] == ToBits(s[i], 8)
  {
    ByteAt(s, i, 8);
  }

  lemma SameByteSameBits(s: seq<u8>, t: seq<u8>, i: nat)
    requires i < |s| && i < |t|
    ensures s[i] == t[i] <==> BitsOf(s)[8 * i..8 * i + 8] == BitsOf(t)[8 * i..8 * i + 8]
  {
    BitsOfByteAt(s, i);
    BitsOfByteAt(t, i);
    Pow2Width();
    OfBitsInverts(s[i], 8);
    OfBitsInverts(t[i], 8);
  }

  method AbsorbByte(register: Bits, value: u8) returns (crc: Bits)
    requires |register| == WIDTH
    ensures crc == Absorb(register, value)
  {
    crc := ShiftTimes(Xor(register, ToBits(value, 8) + Falses(WIDTH - 8)), 8);
  }

  method ShiftTimes(register: Bits, n: nat) returns (crc: Bits)
    requires |register| == WIDTH
    ensures crc == Shifts(register, n)
  {
    crc := register;
    for bit := 0 to n
      invariant |crc| == WIDTH && Shifts(register, n) == Shifts(crc, n - bit)
    {
      crc := Shift(crc);
    }
  }
}
