// The 128 x 128 sign table built by doubling, its orthogonality, and the
// descriptor projection factored into 4 groups of 32.
module Hadamard {
  import opened Words
  import opened Arithmetic

  const SIDE: nat := 128

  // Number of bits that two indices share.
  function Shared(i: nat, j: nat): nat {
    if i == 0 || j == 0 then 0 else (i % 2) * (j % 2) + Shared(i / 2, j / 2)
  }

  function Parity(n: nat): int { if n % 2 == 0 then 1 else -1 }

  // (-1) to the number of shared bits.
  function Sign(i: nat, j: nat): int { Parity(Shared(i, j)) }

  lemma {:induction false} SharedHalves(i: nat, j: nat)
    ensures Shared(i, j) == (i % 2) * (j % 2) + Shared(i / 2, j / 2)
  {
  }

  lemma ParityOfSum(a: nat, b: nat)
    ensures Parity(a + b) == Parity(a) * Parity(b)
  {
  }

  lemma SignHalves(i: nat, j: nat)
    ensures Sign(i, j) == Parity((i % 2) * (j % 2)) * Sign(i / 2, j / 2)
  {
    SharedHalves(i, j);
    ParityOfSum((i % 2) * (j % 2), Shared(i / 2, j / 2));
  }

  lemma HalfOfPlus(i: nat, c: nat, p: nat)
    ensures (i + c * (2 * p)) % 2 == i % 2 && (i + c * (2 * p)) / 2 == i / 2 + c * p
  {
    assert i + c * (2 * p) == i + 2 * (c * p);
  }

  // Signs multiply over high and low bits.
  lemma {:induction false} SignSplits(k: nat, a: nat, b: nat, i: nat, j: nat)
    requires i < Pow2(k) && j < Pow2(k)
    ensures Sign(i + a * Pow2(k), j + b * Pow2(k)) == Sign(i, j) * Sign(a, b)
    decreases k
  {
    if k == 0 {
      assert i == 0 && j == 0;
    } else {
      var p := Pow2(k - 1);
      HalfOfPlus(i, a, p);
      HalfOfPlus(j, b, p);
      SignSplits(k - 1, a, b, i / 2, j / 2);
      SignFromHalves(i, j, i + a * (2 * p), j + b * (2 * p), Sign(a, b));
    }
  }

  lemma SignFromHalves(i: nat, j: nat, i': nat, j': nat, s: int)
    requires i % 2 == i' % 2 && j % 2 == j' % 2 && Sign(i' / 2, j' / 2) == Sign(i / 2, j / 2) * s
    ensures Sign(i', j') == Sign(i, j) * s
  {
    SignHalves(i', j');
    SignHalves(i, j);
    Reassociate(Parity((i % 2) * (j % 2)), Sign(i / 2, j / 2), s);
  }

  lemma Reassociate(x: int, y: int, z: int)
    ensures x * (y * z) == (x * y) * z
  {
  }

  // ---------- orthogonality ----------

  type Term = nat -> int

  function Sum(f: Term, n: nat): int
    decreases n, f
  {
    if n == 0 then 0 else Sum(f, n - 1) + f(n - 1)
  }

  // A sum over 2n terms that pair up into multiples of another sum.
  lemma {:induction false} SumOfPairs(f: Term, g: Term, factor: int, n: nat)
    requires forall m: nat :: f(2 * m) + f(2 * m + 1) == factor * g(m)
    ensures Sum(f, 2 * n) == factor * Sum(g, n)
    decreases n
  {
    if n > 0 {
      SumOfPairs(f, g, factor, n - 1);
      var m: nat := n - 1;
      assert f(2 * m) + f(2 * m + 1) == factor * g(m);
      TwoTerms(f, 2 * m);
      Distribute(factor, Sum(g, m), g(m));
    }
  }

  lemma TwoTerms(f: Term, n: nat)
    ensures Sum(f, n + 2) == Sum(f, n) + f(n) + f(n + 1)
  {
    assert Sum(f, n + 1) == Sum(f, n) + f(n);
  }

  lemma Distribute(x: int, y: int, z: int)
    ensures x * (y + z) == x * y + x * z
  {
  }

  function RowProduct(i: nat, j: nat): Term { (m: nat) => Sign(i, m) * Sign(j, m) }

  lemma HalfRow(i: nat, m: nat)
    ensures Sign(i, 2 * m) == Sign(i / 2, m)
    ensures Sign(i, 2 * m + 1) == Parity(i % 2) * Sign(i / 2, m)
  {
    SignHalves(i, 2 * m);
    SignHalves(i, 2 * m + 1);
  }

  lemma PairOfColumns(i: nat, j: nat, m: nat)
    ensures RowProduct(i, j)(2 * m) + RowProduct(i, j)(2 * m + 1)
         == (if i % 2 == j % 2 then 2 else 0) * RowProduct(i / 2, j / 2)(m)
  {
    HalfRow(i, m);
    HalfRow(j, m);
  }

  lemma {:induction false} ColumnsPairUp(i: nat, j: nat, n: nat)
    ensures Sum(RowProduct(i, j), 2 * n) == (if i % 2 == j % 2 then 2 else 0) * Sum(RowProduct(i / 2, j / 2), n)
  {
    var factor := if i % 2 == j % 2 then 2 else 0;
    forall m: nat
      ensures RowProduct(i, j)(2 * m) + RowProduct(i, j)(2 * m + 1) == factor * RowProduct(i / 2, j / 2)(m)
    {
      PairOfColumns(i, j, m);
    }
    SumOfPairs(RowProduct(i, j), RowProduct(i / 2, j / 2), factor, n);
  }

  // Different rows are orthogonal and every row has length Pow2(k).
  lemma {:induction false} RowsOrthogonal(k: nat, i: nat, j: nat)
    requires i < Pow2(k) && j < Pow2(k)
    ensures Sum(RowProduct(i, j), Pow2(k)) == if i == j then Pow2(k) else 0
    decreases k
  {
    if k == 0 {
      assert Sum(RowProduct(i, j), 1) == Sum(RowProduct(i, j), 0) + RowProduct(i, j)(0);
    } else {
      ColumnsPairUp(i, j, Pow2(k - 1));
      RowsOrthogonal(k - 1, i / 2, j / 2);
    }
  }

  lemma TableRowsOrthogonal(i: nat, j: nat)
    requires i < SIDE && j < SIDE
    ensures Sum(RowProduct(i, j), SIDE) == if i == j then SIDE else 0
  {
    assert Pow2(3) == 8;
    PowOfSum(3, 3);
    PowOfSum(6, 1);
    RowsOrthogonal(7, i, j);
  }

  // ---------- the table ----------

  function At(t: seq<i16>, i: nat, j: nat): i16
    requires |t| == SIDE * SIDE && i < SIDE && j < SIDE
  {
    t[128 * i + j]
  }

  function Fold(i: nat, size: nat): nat { if i < size then i else i - size }

  // The cells settled when row k of the block is done up to column c.
  ghost predicate Settled(i: nat, j: nat, size: nat, k: nat, c: nat) {
    (i < size && j < size) || Fold(i, size) < k || (Fold(i, size) == k && Fold(j, size) < c)
  }

  ghost predicate Doubling(t: seq<i16>, size: nat, k: nat, c: nat)
    requires |t| == SIDE * SIDE && 2 * size <= SIDE
  {
    forall i: nat, j: nat :: i < 2 * size && j < 2 * size && Settled(i, j, size, k, c) ==> At(t, i, j) == Sign(i, j)
  }

  ghost predicate IsTable(t: seq<i16>, n: nat)
    requires |t| == SIDE * SIDE && n <= SIDE
  {
    forall i: nat, j: nat :: i < n && j < n ==> At(t, i, j) == Sign(i, j)
  }

  lemma {:induction false} DoubledSign(p: nat, size: nat, k: nat, c: nat)
    requires size == Pow2(p) && k < size && c < size
    ensures Sign(k + size, c) == Sign(k, c + size) == Sign(k, c) && Sign(k + size, c + size) == -Sign(k, c)
  {
    SmallSigns();
    BlockSign(p, size, 1, 0, size, 0, k, c, 1);
    BlockSign(p, size, 0, 1, 0, size, k, c, 1);
    BlockSign(p, size, 1, 1, size, size, k, c, -1);
  }

  lemma {:induction false} BlockSign(p: nat, size: nat, a: nat, b: nat, x: nat, y: nat, k: nat, c: nat, s: int)
    requires size == Pow2(p) && k < size && c < size && x == a * size && y == b * size && s == Sign(a, b)
    ensures Sign(k + x, c + y) == Sign(k, c) * s
  {
    SignSplits(p, a, b, k, c);
  }

  lemma SmallSigns()
    ensures Sign(1, 0) == Sign(0, 1) == 1 && Sign(1, 1) == -1
  {
  }

  // The three writes for one cell of the block.
  lemma CellAt(t: seq<i16>, t': seq<i16>, size: nat, k: nat, c: nat, v: i16, i: nat, j: nat)
    requires |t| == SIDE * SIDE && k < size && c < size && 2 * size <= SIDE && i < 2 * size && j < 2 * size
    requires -0x7fff <= v
    requires t' == t[128 * (k + size) + c := v][128 * k + c + size := v][128 * (k + size) + c + size := -v]
    ensures At(t', i, j) == if i == k + size && j == c then v else if i == k && j == c + size then v
                            else if i == k + size && j == c + size then -v else At(t, i, j)
  {
  }

  lemma {:induction false} CellDone(t: seq<i16>, t': seq<i16>, p: nat, size: nat, k: nat, c: nat, v: i16)
    requires |t| == SIDE * SIDE && size == Pow2(p) && k < size && c < size && 2 * size <= SIDE
    requires Doubling(t, size, k, c) && v == At(t, k, c)
    requires -0x7fff <= v
    requires t' == t[128 * (k + size) + c := v][128 * k + c + size := v][128 * (k + size) + c + size := -v]
    ensures Doubling(t', size, k, c + 1)
  {
    DoubledSign(p, size, k, c);
    assert v as int == Sign(k, c);
    forall i: nat, j: nat | i < 2 * size && j < 2 * size && Settled(i, j, size, k, c + 1)
      ensures At(t', i, j) == Sign(i, j)
    {
      CellAt(t, t', size, k, c, v, i, j);
    }
  }

  lemma RowDone(t: seq<i16>, size: nat, k: nat)
    requires |t| == SIDE * SIDE && 2 * size <= SIDE && Doubling(t, size, k, size)
    ensures Doubling(t, size, k + 1, 0)
  {
  }

  lemma BlockDone(t: seq<i16>, size: nat)
    requires |t| == SIDE * SIDE && 0 < size && 2 * size <= SIDE
    ensures IsTable(t, size) <==> Doubling(t, size, 0, 0)
    ensures IsTable(t, 2 * size) <==> Doubling(t, size, size, 0)
  {
    if Doubling(t, size, 0, 0) {
      forall i: nat, j: nat | i < size && j < size ensures At(t, i, j) == Sign(i, j) {
        assert Settled(i, j, size, 0, 0);
      }
    }
    if Doubling(t, size, size, 0) {
      forall i: nat, j: nat | i < 2 * size && j < 2 * size ensures At(t, i, j) == Sign(i, j) {
        assert Settled(i, j, size, size, 0);
      }
    }
  }

  method DoubleRow(table: array<i16>, size: nat, rowStart: nat, ghost p: nat, ghost k: nat)
    requires table.Length == SIDE * SIDE && size == Pow2(p) && 2 * size <= SIDE && k < size
    requires rowStart == 128 * (size + k) && Doubling(table[..], size, k, 0)
    modifies table
    ensures Doubling(table[..], size, k + 1, 0)
  {
    var cursor := rowStart;
    var inner := size;
    while inner > 0
      invariant inner <= size && cursor == rowStart + (size - inner)
      invariant Doubling(table[..], size, k, size - inner)
    {
      cursor := CopyCell(table, size, cursor, p, k, size - inner);
      inner := inner - 1;
    }
    RowDone(table[..], size, k);
  }

  method CopyCell(table: array<i16>, size: nat, cursor: nat, ghost p: nat, ghost k: nat, ghost c: nat)
    returns (next: nat)
    requires table.Length == SIDE * SIDE && size == Pow2(p) && 2 * size <= SIDE && k < size && c < size
    requires cursor == 128 * (size + k) + c && Doubling(table[..], size, k, c)
    modifies table
    ensures next == cursor + 1 && Doubling(table[..], size, k, c + 1)
  {
    ghost var t := table[..];
    var value := table[cursor - size * 128];
    assert value == At(t, k, c) && Settled(k, c, size, k, c);
    table[cursor] := value;
    table[cursor - size * 127] := value;
    table[cursor + size] := -value;
    CellDone(t, table[..], p, size, k, c, value);
    next := cursor + 1;
  }

  method DoubleBlock(table: array<i16>, size: nat, ghost p: nat)
    requires table.Length == SIDE * SIDE && size == Pow2(p) && 2 * size <= SIDE && IsTable(table[..], size)
    modifies table
    ensures IsTable(table[..], 2 * size)
  {
    BlockDone(table[..], size);
    var outer, rowStart := size, size * 128;
    while outer > 0
      invariant outer <= size && rowStart == 128 * (size + (size - outer))
      invariant Doubling(table[..], size, size - outer, 0)
    {
      DoubleRow(table, size, rowStart, p, size - outer);
      rowStart := rowStart + 128;
      outer := outer - 1;
    }
    BlockDone(table[..], size);
  }

  lemma FirstBlock(t: seq<i16>)
    requires |t| == SIDE * SIDE && t[0] == 1 && t[1] == 1 && t[128] == 1 && t[129] == -1
    ensures IsTable(t, 2)
  {
    assert Sign(0, 0) == 1 && Sign(0, 1) == 1 && Sign(1, 0) == 1 && Sign(1, 1) == -1;
  }

  // Every cell of the finished table is the sign of its indices.
  method BuildTable(table: array<i16>)
    requires table.Length == SIDE * SIDE
    modifies table
    ensures IsTable(table[..], SIDE)
  {
    table[0] := 1;
    table[1] := 1;
    table[128] := 1;
    table[129] := -1;
    FirstBlock(table[..]);
    var size := 2;
    ghost var p: nat := 1;
    while size < 128
      invariant size == Pow2(p) && 2 <= size <= 128 && 1 <= p <= 7 && Pow2(7) == 128 && IsTable(table[..], size)
    {
      Fits(p);
      DoubleBlock(table, size, p);
      size := size * 2;
      p := p + 1;
    }
  }

  lemma {:induction false} Fits(p: nat)
    requires Pow2(p) < 128 && Pow2(7) == 128
    ensures p < 7 && 2 * Pow2(p) <= 128
  {
    if p > 7 {
      PowOfSum(7, p - 7);
    } else if p < 7 {
      PowOfSum(p + 1, 6 - p);
      assert Pow2(p + 1) * Pow2(6 - p) >= Pow2(p + 1);
    }
  }
}
