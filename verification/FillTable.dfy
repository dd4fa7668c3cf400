// What the fill table says about the neighbours of a pixel.
module FillTable {
  import opened Words
  import opened PatternFill

  // With the eight neighbours given as set or not: the set sides form one chain
  // around the pixel, sides being linked when they meet at a set corner, and
  // the ring is neither full nor nearly so.
  predicate Fills(bl: bool, b: bool, br: bool, l: bool, r: bool, tl: bool, t: bool, tr: bool) {
    var sides := (if r then 1 else 0) + (if t then 1 else 0) + (if l then 1 else 0) + (if b then 1 else 0);
    var corners := (if bl then 1 else 0) + (if br then 1 else 0) + (if tl then 1 else 0) + (if tr then 1 else 0);
    var links := (if r && tr && t then 1 else 0) + (if t && tl && l then 1 else 0)
               + (if l && bl && b then 1 else 0) + (if b && br && r then 1 else 0);
    sides == links + 1 && sides + corners <= 6
  }

  // What a row of the table says about the rings with the given upper half.
  ghost predicate RowFits(row: seq<u8>, r: bool, tl: bool, t: bool, tr: bool) {
    && |row| == 16
    && (row[0] == 1 <==> Fills(false, false, false, false, r, tl, t, tr))
    && (row[1] == 1 <==> Fills(true, false, false, false, r, tl, t, tr))
    && (row[2] == 1 <==> Fills(false, true, false, false, r, tl, t, tr))
    && (row[3] == 1 <==> Fills(true, true, false, false, r, tl, t, tr))
    && (row[4] == 1 <==> Fills(false, false, true, false, r, tl, t, tr))
    && (row[5] == 1 <==> Fills(true, false, true, false, r, tl, t, tr))
    && (row[6] == 1 <==> Fills(false, true, true, false, r, tl, t, tr))
    && (row[7] == 1 <==> Fills(true, true, true, false, r, tl, t, tr))
    && (row[8] == 1 <==> Fills(false, false, false, true, r, tl, t, tr))
    && (row[9] == 1 <==> Fills(true, false, false, true, r, tl, t, tr))
    && (row[10] == 1 <==> Fills(false, true, false, true, r, tl, t, tr))
    && (row[11] == 1 <==> Fills(true, true, false, true, r, tl, t, tr))
    && (row[12] == 1 <==> Fills(false, false, true, true, r, tl, t, tr))
    && (row[13] == 1 <==> Fills(true, false, true, true, r, tl, t, tr))
    && (row[14] == 1 <==> Fills(false, true, true, true, r, tl, t, tr))
    && (row[15] == 1 <==> Fills(true, true, true, true, r, tl, t, tr))
  }

  // The rows, by their upper half.

  lemma Row0()
    ensures RowFits(ROW0, false, false, false, false)
  {
  }

  lemma Row1()
    ensures RowFits(ROW1, true, false, false, false)
  {
  }

  lemma Row2()
    ensures RowFits(ROW2, false, true, false, false)
  {
  }

  lemma Row3()
    ensures RowFits(ROW3, true, true, false, false)
  {
  }

  lemma Row4()
    ensures RowFits(ROW4, false, false, true, false)
  {
  }

  lemma Row5()
    ensures RowFits(ROW5, true, false, true, false)
  {
  }

  lemma Row6()
    ensures RowFits(ROW6, false, true, true, false)
  {
  }

  lemma Row7()
    ensures RowFits(ROW7, true, true, true, false)
  {
  }

  lemma Row8()
    ensures RowFits(ROW8, false, false, false, true)
  {
  }

  lemma Row9()
    ensures RowFits(ROW9, true, false, false, true)
  {
  }

  lemma Row10()
    ensures RowFits(ROW10, false, true, false, true)
  {
  }

  lemma Row11()
    ensures RowFits(ROW11, true, true, false, true)
  {
  }

  lemma Row12()
    ensures RowFits(ROW12, false, false, true, true)
  {
  }

  lemma Row13()
    ensures RowFits(ROW13, true, false, true, true)
  {
  }

  lemma Row14()
    ensures RowFits(ROW14, false, true, true, true)
  {
  }

  lemma Row15()
    ensures RowFits(ROW15, true, true, true, true)
  {
  }

  function Low(bl: bool, b: bool, br: bool, l: bool): (n: nat)
    ensures n < 16
  {
    (if bl then 1 else 0) + (if b then 2 else 0) + (if br then 4 else 0) + (if l then 8 else 0)
  }

  lemma PickEntry(row: seq<u8>, bl: bool, b: bool, br: bool, l: bool, r: bool, tl: bool, t: bool, tr: bool)
    requires RowFits(row, r, tl, t, tr)
    ensures row[Low(bl, b, br, l)] == 1 <==> Fills(bl, b, br, l, r, tl, t, tr)
  {
  }

  lemma Pair0(r: bool)
    ensures RowFits(ROWS[Low(r, false, false, false)], r, false, false, false)
  {
    if r { Row1(); } else { Row0(); }
  }

  lemma Pair1(r: bool)
    ensures RowFits(ROWS[Low(r, true, false, false)], r, true, false, false)
  {
    if r { Row3(); } else { Row2(); }
  }

  lemma Pair2(r: bool)
    ensures RowFits(ROWS[Low(r, false, true, false)], r, false, true, false)
  {
    if r { Row5(); } else { Row4(); }
  }

  lemma Pair3(r: bool)
    ensures RowFits(ROWS[Low(r, true, true, false)], r, true, true, false)
  {
    if r { Row7(); } else { Row6(); }
  }

  lemma Pair4(r: bool)
    ensures RowFits(ROWS[Low(r, false, false, true)], r, false, false, true)
  {
    if r { Row9(); } else { Row8(); }
  }

  lemma Pair5(r: bool)
    ensures RowFits(ROWS[Low(r, true, false, true)], r, true, false, true)
  {
    if r { Row11(); } else { Row10(); }
  }

  lemma Pair6(r: bool)
    ensures RowFits(ROWS[Low(r, false, true, true)], r, false, true, true)
  {
    if r { Row13(); } else { Row12(); }
  }

  lemma Pair7(r: bool)
    ensures RowFits(ROWS[Low(r, true, true, true)], r, true, true, true)
  {
    if r { Row15(); } else { Row14(); }
  }

  lemma RowsFit(r: bool, tl: bool, t: bool, tr: bool)
    ensures RowFits(ROWS[Low(r, tl, t, tr)], r, tl, t, tr)
  {
    if !tr {
      if !t { if tl { Pair1(r); } else { Pair0(r); } } else { if tl { Pair3(r); } else { Pair2(r); } }
    } else {
      if !t { if tl { Pair5(r); } else { Pair4(r); } } else { if tl { Pair7(r); } else { Pair6(r); } }
    }
  }

  lemma EntriesFit(bl: bool, b: bool, br: bool, l: bool, r: bool, tl: bool, t: bool, tr: bool)
    ensures |ROWS[Low(r, tl, t, tr)]| == 16
    ensures ROWS[Low(r, tl, t, tr)][Low(bl, b, br, l)] == 1 <==> Fills(bl, b, br, l, r, tl, t, tr)
  {
    RowsFit(r, tl, t, tr);
    PickEntry(ROWS[Low(r, tl, t, tr)], bl, b, br, l, r, tl, t, tr);
  }

  predicate Odd(bits: Digits, x: int, y: int) { bits(x, y) == 1 }

  ghost predicate Fits(bits: Digits, x: int, y: int) {
    Fills(Odd(bits, x - 1, y + 1), Odd(bits, x, y + 1), Odd(bits, x + 1, y + 1), Odd(bits, x - 1, y),
          Odd(bits, x + 1, y), Odd(bits, x - 1, y - 1), Odd(bits, x, y - 1), Odd(bits, x + 1, y - 1))
  }

  lemma BitsWeigh(a: Digit, b: Digit, c: Digit, d: Digit)
    ensures Low(a == 1, b == 1, c == 1, d == 1) == Nibble(a, b, c, d)
  {
  }

  lemma IndexSplits(bits: Digits, x: int, y: int)
    ensures NeighbourIndex(bits, x, y)
         == Low(Odd(bits, x - 1, y + 1), Odd(bits, x, y + 1), Odd(bits, x + 1, y + 1), Odd(bits, x - 1, y))
          + 16 * Low(Odd(bits, x + 1, y), Odd(bits, x - 1, y - 1), Odd(bits, x, y - 1), Odd(bits, x + 1, y - 1))
  {
    BitsWeigh(bits(x - 1, y + 1), bits(x, y + 1), bits(x + 1, y + 1), bits(x - 1, y));
    BitsWeigh(bits(x + 1, y), bits(x - 1, y - 1), bits(x, y - 1), bits(x + 1, y - 1));
  }

  lemma Nibbles(low: nat, high: nat)
    requires low < 16
    ensures (low + 16 * high) % 16 == low && (low + 16 * high) / 16 == high
  {
  }

  lemma EntryAt(low: nat, high: nat)
    requires low < 16 && high < 16
    ensures Table()[low + 16 * high] == ROWS[high][low]
  {
    Nibbles(low, high);
  }

  // The table allows a pixel to be filled exactly when its set sides form one
  // chain and at most six of its neighbours are set.
  lemma TableMeaning(bits: Digits, x: int, y: int)
    ensures Table()[NeighbourIndex(bits, x, y)] == 1 <==> Fits(bits, x, y)
  {
    IndexSplits(bits, x, y);
    EntryMeaning(NeighbourIndex(bits, x, y), Odd(bits, x - 1, y + 1), Odd(bits, x, y + 1), Odd(bits, x + 1, y + 1),
                 Odd(bits, x - 1, y), Odd(bits, x + 1, y), Odd(bits, x - 1, y - 1), Odd(bits, x, y - 1),
                 Odd(bits, x + 1, y - 1));
  }

  lemma EntryMeaning(n: nat, bl: bool, b: bool, br: bool, l: bool, r: bool, tl: bool, t: bool, tr: bool)
    requires n == Low(bl, b, br, l) + 16 * Low(r, tl, t, tr)
    ensures n < 256 && (Table()[n] == 1 <==> Fills(bl, b, br, l, r, tl, t, tr))
  {
    EntryAt(Low(bl, b, br, l), Low(r, tl, t, tr));
    EntriesFit(bl, b, br, l, r, tl, t, tr);
  }

  // A scan along rows fills a zero pixel with a set pixel beside it on its row
  // whose neighbours fit; a scan along columns one above or below it.
  lemma FillableMeans(width: nat, height: nat, img: Image, x: int, y: int)
    requires width >= 3 && height >= 3
    ensures Gaps(width, height).Fillable(img, x, y, AlongRow) <==>
              img(x, y) == 0 && Fits(Parity(img), x, y) && 1 in {img(x - 1, y), img(x + 1, y)}
    ensures Gaps(width, height).Fillable(img, x, y, AlongColumn) <==>
              img(x, y) == 0 && Fits(Parity(img), x, y) && 1 in {img(x, y - 1), img(x, y + 1)}
  {
    TableMeaning(Parity(img), x, y);
  }

  function Transposed(img: Image): Image { (x: int, y: int) => img(y, x) }

  // Rows and columns are treated alike.
  lemma TransposedFillable(width: nat, height: nat, img: Image, x: int, y: int)
    requires width >= 3 && height >= 3
    ensures Gaps(width, height).Fillable(img, x, y, AlongRow)
       <==> Gaps(height, width).Fillable(Transposed(img), y, x, AlongColumn)
  {
    TableMeaning(Parity(img), x, y);
    TableMeaning(Parity(Transposed(img)), y, x);
    assert Fits(Parity(img), x, y) <==> Fits(Parity(Transposed(img)), y, x);
  }
}
