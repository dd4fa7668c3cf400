// Four-connected components of a foreground on a grid, and the facts about
// partial labellings that a flood fill keeps.
module Components {
  import opened Words
  import opened Arithmetic

  datatype Cell = Cell(x: int, y: int)

  // A grid and its foreground.
  datatype Scene = Scene(rows: nat, columns: nat, foreground: Cell -> bool) {
    predicate Has(c: Cell) { 0 <= c.x < columns && 0 <= c.y < rows }
    predicate On(c: Cell) { Has(c) && foreground(c) }
  }

  predicate Adjacent(a: Cell, b: Cell) { Abs(a.x - b.x) + Abs(a.y - b.y) == 1 }

  // The cells above, below, left and right.
  lemma FourNeighbours(a: Cell, b: Cell)
    ensures Adjacent(a, b) <==>
              b in {Cell(a.x, a.y - 1), Cell(a.x, a.y + 1), Cell(a.x - 1, a.y), Cell(a.x + 1, a.y)}
    ensures Adjacent(a, b) <==> Adjacent(b, a)
  {
  }

  ghost predicate Path(s: Scene, p: seq<Cell>, a: Cell, b: Cell) {
    && p != [] && p[0] == a && p[|p| - 1] == b
    && (forall i :: 0 <= i < |p| ==> s.On(p[i]))
    && (forall i :: 0 <= i < |p| - 1 ==> Adjacent(p[i], p[i + 1]))
  }

  ghost predicate Connected(s: Scene, a: Cell, b: Cell) { exists p :: Path(s, p, a, b) }

  lemma ConnectedSelf(s: Scene, a: Cell)
    requires s.On(a)
    ensures Connected(s, a, a)
  {
    assert Path(s, [a], a, a);
  }

  lemma JoinPaths(s: Scene, p: seq<Cell>, q: seq<Cell>, a: Cell, b: Cell, c: Cell, d: Cell)
    requires Path(s, p, a, b) && Path(s, q, c, d) && Adjacent(b, c)
    ensures Path(s, p + q, a, d)
  {
  }

  lemma ConnectedStep(s: Scene, a: Cell, b: Cell, c: Cell)
    requires Connected(s, a, b) && Adjacent(b, c) && s.On(c)
    ensures Connected(s, a, c)
  {
    var p :| Path(s, p, a, b);
    assert Path(s, [c], c, c);
    JoinPaths(s, p, [c], a, b, c, c);
  }

  function Reversed(p: seq<Cell>): (r: seq<Cell>)
    ensures |r| == |p| && forall i :: 0 <= i < |p| ==> r[i] == p[|p| - 1 - i]
  {
    seq(|p|, i requires 0 <= i < |p| => p[|p| - 1 - i])
  }

  lemma ConnectedBack(s: Scene, a: Cell, b: Cell)
    requires Connected(s, a, b)
    ensures Connected(s, b, a)
  {
    var p :| Path(s, p, a, b);
    var r := Reversed(p);
    forall i | 0 <= i < |r| - 1 ensures Adjacent(r[i], r[i + 1]) {
      assert Adjacent(p[|p| - 2 - i], p[|p| - 2 - i + 1]);
    }
    assert Path(s, r, b, a);
  }

  lemma ConnectedThrough(s: Scene, a: Cell, b: Cell, c: Cell)
    requires Connected(s, a, b) && Connected(s, b, c)
    ensures Connected(s, a, c)
  {
    var p :| Path(s, p, a, b);
    var q :| Path(s, q, b, c);
    if |q| == 1 {
      assert Path(s, p, a, c);
    } else {
      assert Path(s, q[1..], q[1], c);
      JoinPaths(s, p, q[1..], a, b, q[1], c);
    }
  }

  // ---------- partial labellings ----------

  // Labels given so far: 0 for background, 1, 2, ... for components.
  type Labelling = map<Cell, int>

  // Every label is justified: a component's cells are connected to the cell it
  // was started from.
  ghost predicate Sound(s: Scene, lab: Labelling, seeds: seq<Cell>) {
    forall c :: c in lab ==> Justified(s, c, lab[c], seeds)
  }

  ghost predicate Justified(s: Scene, c: Cell, mark: int, seeds: seq<Cell>) {
    && s.Has(c) && 0 <= mark <= |seeds|
    && (mark == 0 <==> !s.foreground(c))
    && (mark > 0 ==> Connected(s, seeds[mark - 1], c))
  }

  // All foreground neighbours carry the cell's own label.
  ghost predicate Settled(s: Scene, lab: Labelling, a: Cell)
    requires a in lab
  {
    forall b :: s.On(b) && Adjacent(a, b) ==> b in lab && lab[b] == lab[a]
  }

  ghost predicate ClosedExcept(s: Scene, lab: Labelling, open: set<Cell>) {
    forall a :: a in lab && lab[a] > 0 && a !in open ==> Settled(s, lab, a)
  }

  // Same label, whatever was dropped: connected.
  lemma SameLabelConnected(s: Scene, lab: Labelling, seeds: seq<Cell>, a: Cell, b: Cell)
    requires Sound(s, lab, seeds) && a in lab && b in lab && lab[a] == lab[b] > 0
    ensures Connected(s, a, b)
  {
    assert Justified(s, a, lab[a], seeds) && Justified(s, b, lab[b], seeds);
    ConnectedBack(s, seeds[lab[a] - 1], a);
    ConnectedThrough(s, a, seeds[lab[a] - 1], b);
  }

  lemma AlongPath(s: Scene, lab: Labelling, p: seq<Cell>, a: Cell, b: Cell)
    requires ClosedExcept(s, lab, {}) && Path(s, p, a, b) && a in lab && lab[a] > 0
    ensures b in lab && lab[b] == lab[a]
    decreases |p|
  {
    if |p| > 1 {
      assert Settled(s, lab, a);
      assert s.On(p[1]) && Adjacent(p[0], p[1]);
      TailPath(s, p, a, b);
      AlongPath(s, lab, p[1..], p[1], b);
    }
  }

  lemma TailPath(s: Scene, p: seq<Cell>, a: Cell, b: Cell)
    requires Path(s, p, a, b) && |p| > 1
    ensures Path(s, p[1..], p[1], b)
  {
    forall i | 0 <= i < |p[1..]| - 1 ensures Adjacent(p[1..][i], p[1..][i + 1]) {
      assert Adjacent(p[i + 1], p[i + 1 + 1]);
    }
  }

  // Connected, and nothing left open: same label.
  lemma ConnectedSameLabel(s: Scene, lab: Labelling, a: Cell, b: Cell)
    requires ClosedExcept(s, lab, {}) && Connected(s, a, b) && a in lab && lab[a] > 0
    ensures b in lab && lab[b] == lab[a]
  {
    var p :| Path(s, p, a, b);
    AlongPath(s, lab, p, a, b);
  }

  // ---------- one more label ----------

  lemma SoundMore(s: Scene, lab: Labelling, seeds: seq<Cell>, c: Cell, mark: int)
    requires Sound(s, lab, seeds) && Justified(s, c, mark, seeds)
    ensures Sound(s, lab[c := mark], seeds)
  {
  }

  lemma SoundNewSeed(s: Scene, lab: Labelling, seeds: seq<Cell>, c: Cell)
    requires Sound(s, lab, seeds) && s.On(c) && c !in lab
    ensures Sound(s, lab[c := |seeds| + 1], seeds + [c])
  {
    ConnectedSelf(s, c);
    var lab' := lab[c := |seeds| + 1];
    forall a | a in lab' ensures Justified(s, a, lab'[a], seeds + [c]) {
      if a != c { assert Justified(s, a, lab[a], seeds); }
    }
  }

  lemma SettledMore(s: Scene, lab: Labelling, a: Cell, c: Cell, mark: int)
    requires a in lab && Settled(s, lab, a) && c !in lab
    ensures Settled(s, lab[c := mark], a)
  {
  }

  lemma ClosedMore(s: Scene, lab: Labelling, open: set<Cell>, open': set<Cell>, c: Cell, mark: int)
    requires ClosedExcept(s, lab, open) && c !in lab && open <= open' && (mark > 0 ==> c in open')
    ensures ClosedExcept(s, lab[c := mark], open')
  {
    forall a | a in lab && lab[a] > 0 && a !in open ensures Settled(s, lab[c := mark], a) {
      SettledMore(s, lab, a, c, mark);
    }
  }

  lemma ClosedLess(s: Scene, lab: Labelling, open: set<Cell>, a: Cell)
    requires ClosedExcept(s, lab, open) && a in lab && Settled(s, lab, a)
    ensures ClosedExcept(s, lab, open - {a})
  {
  }

  // ---------- sizes ----------

  function CellsOf(lab: Labelling, mark: int): set<Cell> { set c | c in lab && lab[c] == mark }

  lemma CellsMore(lab: Labelling, c: Cell, mark: int, l: int)
    requires c !in lab
    ensures |CellsOf(lab[c := mark], l)| == |CellsOf(lab, l)| + if l == mark then 1 else 0
  {
    if l == mark {
      assert CellsOf(lab[c := mark], l) == CellsOf(lab, l) + {c};
    } else {
      assert CellsOf(lab[c := mark], l) == CellsOf(lab, l);
    }
  }

  function RowCells(columns: nat, y: nat): (cells: set<Cell>)
    ensures |cells| == columns
    ensures forall c :: c in cells <==> 0 <= c.x < columns && c.y == y
  {
    if columns == 0 then {} else RowCells(columns - 1, y) + {Cell(columns - 1, y)}
  }

  function GridCells(columns: nat, rows: nat): (cells: set<Cell>)
    ensures |cells| == rows * columns
    ensures forall c :: c in cells <==> 0 <= c.x < columns && 0 <= c.y < rows
  {
    if rows == 0 then {} else
      var rest := GridCells(columns, rows - 1);
      DisjointSum(rest, RowCells(columns, rows - 1));
      OneMore(rows, columns);
      rest + RowCells(columns, rows - 1)
  }

  lemma DisjointSum(a: set<Cell>, b: set<Cell>)
    requires a !! b
    ensures |a + b| == |a| + |b|
  {
  }

  // A component is never larger than the grid.
  lemma SizeBound(s: Scene, lab: Labelling, seeds: seq<Cell>, mark: int)
    requires Sound(s, lab, seeds)
    ensures |CellsOf(lab, mark)| <= s.rows * s.columns
  {
    forall c | c in CellsOf(lab, mark) ensures c in GridCells(s.columns, s.rows) {
      assert Justified(s, c, lab[c], seeds);
    }
    SubsetSize(CellsOf(lab, mark), GridCells(s.columns, s.rows));
  }
}
