// The flood fill: labels and sizes in place, a circular queue that drops cells
// when it is full.
module ComponentLabelling {
  import opened Words
  import opened Arithmetic
  import opened Components

  const CAPACITY: nat := 2450
  const MAX_PIXELS: nat := 19600

  class Ring {
    const cells: array<Cell>
    var head: nat
    var tail: nat
    var queued: nat

    // The queue length that each push found, over the whole life of the ring.
    ghost var found: seq<nat>

    ghost predicate Valid()
      reads this
    {
      && cells.Length == CAPACITY && head < CAPACITY && queued <= CAPACITY
      && tail == Slot(head, queued)
      && forall i :: 0 <= i < |found| ==> found[i] <= CAPACITY
    }

    // Some push found the ring full and dropped its cell.
    ghost predicate Overflowed()
      reads this
    {
      CAPACITY in found
    }

    ghost function Contents(): (c: seq<Cell>)
      requires Valid()
      reads this, cells
      ensures |c| == queued
    {
      seq(queued, i requires 0 <= i < queued && Valid() reads this, cells => cells[Slot(head, i)])
    }

    constructor ()
      ensures Valid() && fresh(this) && fresh(cells) && Contents() == [] && found == []
    {
      cells := new Cell[CAPACITY](_ => Cell(0, 0));
      head, tail, queued := 0, 0, 0;
      found := [];
    }

    method Reset()
      requires Valid()
      modifies this`head, this`tail, this`queued
      ensures Valid() && Contents() == []
    {
      head, tail, queued := 0, 0, 0;
    }

    // A full queue drops the cell.
    method Push(c: Cell) returns (ok: bool)
      requires Valid()
      modifies this, cells
      ensures Valid() && (ok <==> old(queued) < CAPACITY)
      ensures Contents() == if ok then old(Contents()) + [c] else old(Contents())
      ensures found == old(found) + [old(queued)]
    {
      ok := queued < CAPACITY;
      found := found + [queued];
      if ok {
        Apart(head, queued);
        cells[tail] := c;
        tail := (tail + 1) % CAPACITY;
        queued := queued + 1;
      }
    }

    method Pop() returns (c: Cell)
      requires Valid() && queued > 0
      modifies this`head, this`queued
      ensures Valid() && old(Contents()) == [c] + Contents()
    {
      c := cells[head];
      NextSlot(head, queued, (head + 1) % CAPACITY);
      head := (head + 1) % CAPACITY;
      queued := queued - 1;
    }
  }

  function Slot(head: nat, i: nat): (k: nat)
    ensures k < CAPACITY
  {
    (head + i) % CAPACITY
  }

  lemma SlotIs(head: nat, i: nat)
    requires head < CAPACITY && i <= CAPACITY
    ensures Slot(head, i) == if head + i < CAPACITY then head + i else head + i - CAPACITY
  {
  }

  lemma Apart(head: nat, queued: nat)
    requires head < CAPACITY && queued < CAPACITY
    ensures forall i: nat :: i < queued ==> Slot(head, i) != Slot(head, queued)
    ensures (Slot(head, queued) + 1) % CAPACITY == Slot(head, queued + 1)
  {
    forall i: nat | i < queued ensures Slot(head, i) != Slot(head, queued) {
      SlotIs(head, i);
      SlotIs(head, queued);
    }
    SlotIs(head, queued);
    SlotIs(head, queued + 1);
  }

  lemma NextSlot(head: nat, queued: nat, next: nat)
    requires head < CAPACITY && 0 < queued <= CAPACITY && next == (head + 1) % CAPACITY
    ensures forall i: nat :: i < queued ==> Slot(next, i) == Slot(head, i + 1)
    ensures Slot(head, 0) == head
  {
    SlotIs(head, 0);
    SlotIs(head, 1);
    forall i: nat | i < queued ensures Slot(next, i) == Slot(head, i + 1) {
      SlotIs(head, i + 1);
      SlotIs(next, i);
    }
  }

  // ---------- the state of a scan ----------

  // The label array shows the labels given so far, -1 elsewhere.
  ghost predicate Linked(s: Scene, labels: array2<int>, lab: Labelling)
    reads labels
  {
    && labels.Length0 == s.rows && labels.Length1 == s.columns
    && forall c :: s.Has(c) ==> labels[c.y, c.x] == if c in lab then lab[c] else -1
  }

  ghost predicate SizesHold(sizes: array<nat>, lab: Labelling)
    reads sizes
  {
    forall l :: 1 <= l < sizes.Length ==> sizes[l] == |CellsOf(lab, l)|
  }

  ghost predicate State(s: Scene, labels: array2<int>, sizes: array<nat>, lab: Labelling, seeds: seq<Cell>)
    reads labels, sizes
  {
    && Linked(s, labels, lab) && SizesHold(sizes, lab) && Sound(s, lab, seeds)
    && |seeds| < sizes.Length
  }

  // The cells waiting in the queue all carry the current label.
  ghost predicate Waiting(lab: Labelling, pending: seq<Cell>, mark: int) {
    forall c :: c in pending ==> c in lab && lab[c] == mark
  }

  function Members(pending: seq<Cell>): set<Cell> { set c | c in pending }

  // A component with more cells than the queue and its current point together.
  ghost predicate Big(lab: Labelling) { exists l :: l > 0 && |CellsOf(lab, l)| > CAPACITY + 1 }

  lemma BigMore(lab: Labelling, c: Cell, mark: int)
    requires Big(lab) && c !in lab
    ensures Big(lab[c := mark])
  {
    var l :| l > 0 && |CellsOf(lab, l)| > CAPACITY + 1;
    CellsMore(lab, c, mark, l);
  }

  // The foreground cells that have a label.
  function Reached(lab: Labelling): set<Cell> { set c | c in lab && lab[c] > 0 }

  lemma ReachedMore(lab: Labelling, c: Cell, mark: int)
    requires c !in lab
    ensures |Reached(lab[c := mark])| == |Reached(lab)| + if mark > 0 then 1 else 0
  {
    if mark > 0 {
      assert Reached(lab[c := mark]) == Reached(lab) + {c};
    } else {
      assert Reached(lab[c := mark]) == Reached(lab);
    }
  }

  // What holds while a component grows: `taken` cells of it have left the
  // queue, the last one being `point`.
  ghost predicate Growing(s: Scene, lab: Labelling, seeds: seq<Cell>, pending: seq<Cell>, open: set<Cell>, taken: nat,
                          dropped: bool)
  {
    && |seeds| > 0 && Waiting(lab, pending, |seeds|)
    && (dropped ==> Big(lab))
    && (!dropped ==> ClosedExcept(s, lab, open) && taken + |pending| == |CellsOf(lab, |seeds|)|)
  }

  method PutLabel(s: Scene, labels: array2<int>, c: Cell, value: nat, ghost lab: Labelling)
    requires Linked(s, labels, lab) && s.Has(c) && c !in lab
    modifies labels
    ensures Linked(s, labels, lab[c := value])
  {
    labels[c.y, c.x] := value;
  }

  lemma SizesMore(sizes: array<nat>, sizes': seq<nat>, lab: Labelling, c: Cell, mark: int)
    requires SizesHold(sizes, lab) && c !in lab && |sizes'| == sizes.Length
    requires forall l :: 1 <= l < |sizes'| ==> sizes'[l] == sizes[l] + if l == mark then 1 else 0
    ensures forall l :: 1 <= l < |sizes'| ==> sizes'[l] == |CellsOf(lab[c := mark], l)|
  {
    forall l | 1 <= l < |sizes'| ensures sizes'[l] == |CellsOf(lab[c := mark], l)| {
      CellsMore(lab, c, mark, l);
    }
  }

  method CountCell(sizes: array<nat>, mark: nat, ghost lab: Labelling, ghost c: Cell)
    requires SizesHold(sizes, lab) && c !in lab && 1 <= mark < sizes.Length
    modifies sizes
    ensures SizesHold(sizes, lab[c := mark])
  {
    ghost var next := sizes[..][mark := sizes[mark] + 1];
    SizesMore(sizes, next, lab, c, mark);
    sizes[mark] := sizes[mark] + 1;
    assert sizes[..] == next;
  }

  lemma SizesSame(sizes: array<nat>, lab: Labelling, c: Cell)
    requires SizesHold(sizes, lab) && c !in lab
    ensures SizesHold(sizes, lab[c := 0])
  {
    forall l | 1 <= l < sizes.Length ensures sizes[l] == |CellsOf(lab[c := 0], l)| { CellsMore(lab, c, 0, l); }
  }

  // A background cell gets label 0.
  method MarkBackground(s: Scene, labels: array2<int>, sizes: array<nat>, c: Cell, ghost lab: Labelling,
                        ghost seeds: seq<Cell>)
    requires State(s, labels, sizes, lab, seeds) && s.Has(c) && !s.foreground(c) && c !in lab
    modifies labels
    ensures State(s, labels, sizes, lab[c := 0], seeds)
  {
    SizesSame(sizes, lab, c);
    PutLabel(s, labels, c, 0, lab);
    SoundMore(s, lab, seeds, c, 0);
  }

  // A foreground cell reached from the current component joins it.
  method MarkForeground(s: Scene, labels: array2<int>, sizes: array<nat>, c: Cell, mark: nat, ghost lab: Labelling,
                        ghost seeds: seq<Cell>)
    requires State(s, labels, sizes, lab, seeds) && s.On(c) && c !in lab && sizes as object != labels
    requires 0 < mark == |seeds| && Connected(s, seeds[mark - 1], c)
    modifies labels, sizes
    ensures State(s, labels, sizes, lab[c := mark], seeds)
  {
    PutLabel(s, labels, c, mark, lab);
    CountCell(sizes, mark, lab, c);
    SoundMore(s, lab, seeds, c, mark);
  }

  // The first cell of a new component.
  method MarkSeed(s: Scene, labels: array2<int>, sizes: array<nat>, c: Cell, mark: nat, ghost lab: Labelling,
                  ghost seeds: seq<Cell>)
    requires State(s, labels, sizes, lab, seeds) && s.On(c) && c !in lab && sizes as object != labels
    requires mark == |seeds| + 1 < sizes.Length
    modifies labels, sizes
    ensures State(s, labels, sizes, lab[c := mark], seeds + [c])
  {
    PutLabel(s, labels, c, mark, lab);
    CountCell(sizes, mark, lab, c);
    SoundNewSeed(s, lab, seeds, c);
  }

  // ---------- neighbours ----------

  const DX: seq<int> := [-1, 0, 1, 0]
  const DY: seq<int> := [0, -1, 0, 1]

  function Neighbour(c: Cell, direction: nat): Cell
    requires direction < 4
  {
    Cell(c.x + DX[direction], c.y + DY[direction])
  }

  lemma NeighboursAreAdjacent(a: Cell, b: Cell)
    ensures Adjacent(a, b) <==>
              (b == Neighbour(a, 0) || b == Neighbour(a, 1) || b == Neighbour(a, 2) || b == Neighbour(a, 3))
  {
  }

  lemma NeighbourIsAdjacent(a: Cell, direction: nat)
    requires direction < 4
    ensures Adjacent(a, Neighbour(a, direction)) && Adjacent(Neighbour(a, direction), a)
  {
  }

  // The first `directions` neighbours are dealt with.
  ghost predicate Visited(s: Scene, lab: Labelling, point: Cell, mark: int, directions: nat)
    requires directions <= 4
  {
    forall d: nat :: d < directions ==> NeighbourDone(s, lab, Neighbour(point, d), mark)
  }

  ghost predicate NeighbourDone(s: Scene, lab: Labelling, n: Cell, mark: int) {
    s.On(n) ==> n in lab && lab[n] == mark
  }

  lemma VisitedMore(s: Scene, lab: Labelling, point: Cell, mark: int, directions: nat, c: Cell, value: int)
    requires directions < 4 && Visited(s, lab, point, mark, directions) && c !in lab
    requires c == Neighbour(point, directions) && (s.On(c) ==> value == mark)
    ensures Visited(s, lab[c := value], point, mark, directions + 1)
  {
  }

  lemma AllVisited(s: Scene, lab: Labelling, point: Cell, mark: int)
    requires Visited(s, lab, point, mark, 4) && point in lab && lab[point] == mark
    ensures Settled(s, lab, point)
  {
    forall b | s.On(b) && Adjacent(point, b) ensures b in lab && lab[b] == lab[point] {
      NeighboursAreAdjacent(point, b);
      assert NeighbourDone(s, lab, Neighbour(point, 0), mark) && NeighbourDone(s, lab, Neighbour(point, 1), mark);
      assert NeighbourDone(s, lab, Neighbour(point, 2), mark) && NeighbourDone(s, lab, Neighbour(point, 3), mark);
    }
  }

  // A neighbour that already has a label has the right one: an older component
  // next to the point would have taken the point.
  lemma OldNeighbour(s: Scene, lab: Labelling, seeds: seq<Cell>, open: set<Cell>, point: Cell, n: Cell)
    requires Sound(s, lab, seeds) && ClosedExcept(s, lab, open) && n in lab && s.On(n)
    requires s.On(point) && point in lab && Adjacent(n, point)
    requires forall c :: c in open ==> c in lab && lab[c] == lab[point]
    ensures lab[n] == lab[point]
  {
    assert Justified(s, n, lab[n], seeds);
    if n !in open { assert Settled(s, lab, n); }
  }

  // ---------- growing ----------

  lemma GrowBackground(s: Scene, lab: Labelling, seeds: seq<Cell>, pending: seq<Cell>, open: set<Cell>,
                       taken: nat, dropped: bool, c: Cell)
    requires Growing(s, lab, seeds, pending, open, taken, dropped) && c !in lab
    ensures Growing(s, lab[c := 0], seeds, pending, open, taken, dropped)
  {
    CellsMore(lab, c, 0, |seeds|);
    if dropped { BigMore(lab, c, 0); } else { ClosedMore(s, lab, open, open, c, 0); }
  }

  lemma GrowPushed(s: Scene, lab: Labelling, seeds: seq<Cell>, pending: seq<Cell>, point: Cell,
                   taken: nat, dropped: bool, c: Cell)
    requires Growing(s, lab, seeds, pending, Members(pending) + {point}, taken, dropped) && c !in lab
    ensures Growing(s, lab[c := |seeds|], seeds, pending + [c], Members(pending + [c]) + {point}, taken, dropped)
  {
    CellsMore(lab, c, |seeds|, |seeds|);
    if dropped {
      BigMore(lab, c, |seeds|);
    } else {
      ClosedMore(s, lab, Members(pending) + {point}, Members(pending + [c]) + {point}, c, |seeds|);
    }
  }

  // A cell is only dropped while its component has more cells than the queue
  // and the current point together.
  lemma GrowDropped(s: Scene, lab: Labelling, seeds: seq<Cell>, pending: seq<Cell>, open: set<Cell>,
                    taken: nat, dropped: bool, c: Cell)
    requires Growing(s, lab, seeds, pending, open, taken, dropped) && c !in lab && |pending| >= CAPACITY && taken > 0
    ensures Growing(s, lab[c := |seeds|], seeds, pending, open, taken, true)
  {
    CellsMore(lab, c, |seeds|, |seeds|);
    if dropped { BigMore(lab, c, |seeds|); }
  }

  // A big component needs a big grid.
  lemma BigGrid(s: Scene, lab: Labelling, seeds: seq<Cell>)
    requires Big(lab) && Sound(s, lab, seeds)
    ensures s.rows * s.columns > CAPACITY + 1
  {
    var l :| l > 0 && |CellsOf(lab, l)| > CAPACITY + 1;
    SizeBound(s, lab, seeds, l);
  }

  // Labels are only added.
  ghost predicate Extends(lab: Labelling, lab': Labelling) { forall c :: c in lab ==> c in lab' && lab'[c] == lab[c] }

  // And what is added is background or the current component.
  ghost predicate Grown(lab: Labelling, lab': Labelling, mark: int) {
    Extends(lab, lab') && forall c :: c in lab' && c !in lab ==> lab'[c] == 0 || lab'[c] == mark
  }

  lemma GrownThrough(lab: Labelling, lab': Labelling, lab'': Labelling, mark: int)
    requires Grown(lab, lab', mark) && Grown(lab', lab'', mark)
    ensures Grown(lab, lab'', mark)
  {
  }

  // The current point: a cell of the current component.
  ghost predicate Current(s: Scene, lab: Labelling, point: Cell, mark: int)
  {
    s.On(point) && point in lab && lab[point] == mark
  }

  lemma ReachedFrom(s: Scene, lab: Labelling, seeds: seq<Cell>, point: Cell, n: Cell)
    requires Sound(s, lab, seeds) && |seeds| > 0 && Current(s, lab, point, |seeds|) && Adjacent(point, n) && s.On(n)
    ensures Connected(s, seeds[|seeds| - 1], n)
  {
    assert Justified(s, point, lab[point], seeds);
    ConnectedStep(s, seeds[|seeds| - 1], point, n);
  }

  // The queue keeps account of every foreground cell that got a label.
  ghost predicate Counted(ring: Ring, lab: Labelling)
    reads ring
  {
    ring.Valid() && |ring.found| == |Reached(lab)|
  }

  method Visit(s: Scene, labels: array2<int>, sizes: array<nat>, ring: Ring, point: Cell, direction: nat, mark: nat,
               ghost lab: Labelling, ghost seeds: seq<Cell>, ghost taken: nat)
    returns (ghost lab': Labelling)
    requires State(s, labels, sizes, lab, seeds) && Counted(ring, lab) && sizes as object != labels
    requires direction < 4 && mark == |seeds| > 0 && Current(s, lab, point, mark) && taken > 0
    requires Growing(s, lab, seeds, ring.Contents(), Members(ring.Contents()) + {point}, taken, ring.Overflowed())
    requires !ring.Overflowed() ==> Visited(s, lab, point, mark, direction)
    modifies labels, sizes, ring, ring.cells
    ensures State(s, labels, sizes, lab', seeds) && Counted(ring, lab') && Grown(lab, lab', mark)
    ensures Growing(s, lab', seeds, ring.Contents(), Members(ring.Contents()) + {point}, taken, ring.Overflowed())
    ensures !ring.Overflowed() ==> Visited(s, lab', point, mark, direction + 1)
    ensures lab' == lab ==> ring.queued == old(ring.queued)
  {
    lab' := lab;
    var n := Neighbour(point, direction);
    NeighbourIsAdjacent(point, direction);
    if !s.Has(n) { return; }
    if labels[n.y, n.x] != -1 {
      KnownNeighbour(s, lab, seeds, ring.Contents(), taken, ring.Overflowed(), point, n);
      return;
    }
    Unlabelled(s, labels, lab, seeds, n);
    if !s.foreground(n) {
      VisitBackground(s, lab, seeds, ring.Contents(), point, direction, taken, ring.Overflowed());
      MarkBackground(s, labels, sizes, n, lab, seeds);
      lab' := lab[n := 0];
      return;
    }
    if !ring.Overflowed() { VisitedMore(s, lab, point, mark, direction, n, mark); }
    lab' := Join(s, labels, sizes, ring, point, n, mark, lab, seeds, taken);
  }

  lemma VisitBackground(s: Scene, lab: Labelling, seeds: seq<Cell>, pending: seq<Cell>, point: Cell,
                        direction: nat, taken: nat, dropped: bool)
    requires direction < 4 && !s.On(Neighbour(point, direction)) && Neighbour(point, direction) !in lab
    requires Growing(s, lab, seeds, pending, Members(pending) + {point}, taken, dropped)
    requires !dropped ==> Visited(s, lab, point, |seeds|, direction)
    ensures var lab' := lab[Neighbour(point, direction) := 0];
            && Growing(s, lab', seeds, pending, Members(pending) + {point}, taken, dropped)
            && (!dropped ==> Visited(s, lab', point, |seeds|, direction + 1))
            && Reached(lab') == Reached(lab)
  {
    GrowBackground(s, lab, seeds, pending, Members(pending) + {point}, taken, dropped, Neighbour(point, direction));
    if !dropped { VisitedMore(s, lab, point, |seeds|, direction, Neighbour(point, direction), 0); }
  }

  lemma Unlabelled(s: Scene, labels: array2<int>, lab: Labelling, seeds: seq<Cell>, n: Cell)
    requires Linked(s, labels, lab) && Sound(s, lab, seeds) && s.Has(n)
    ensures labels[n.y, n.x] == -1 <==> n !in lab
  {
    if n in lab { assert Justified(s, n, lab[n], seeds); }
  }

  lemma KnownNeighbour(s: Scene, lab: Labelling, seeds: seq<Cell>, pending: seq<Cell>, taken: nat, dropped: bool,
                       point: Cell, n: Cell)
    requires Sound(s, lab, seeds) && |seeds| > 0 && Current(s, lab, point, |seeds|) && n in lab && Adjacent(n, point)
    requires Growing(s, lab, seeds, pending, Members(pending) + {point}, taken, dropped)
    ensures !dropped ==> NeighbourDone(s, lab, n, |seeds|)
  {
    if !dropped && s.On(n) { OldNeighbour(s, lab, seeds, Members(pending) + {point}, point, n); }
  }

  // The queue takes the new cell if it has room.
  method Enqueue(s: Scene, ring: Ring, point: Cell, n: Cell, ghost lab: Labelling, ghost seeds: seq<Cell>,
                 ghost taken: nat)
    requires Counted(ring, lab) && |seeds| > 0 && n !in lab && taken > 0
    requires Growing(s, lab, seeds, ring.Contents(), Members(ring.Contents()) + {point}, taken, ring.Overflowed())
    modifies ring, ring.cells
    ensures Counted(ring, lab[n := |seeds|]) && ring.found == old(ring.found) + [old(ring.queued)]
    ensures Growing(s, lab[n := |seeds|], seeds, ring.Contents(), Members(ring.Contents()) + {point}, taken,
                    ring.Overflowed())
  {
    ghost var pending, dropped := ring.Contents(), ring.Overflowed();
    ReachedMore(lab, n, |seeds|);
    var ok := ring.Push(n);
    if ok {
      GrowPushed(s, lab, seeds, pending, point, taken, dropped, n);
    } else {
      GrowDropped(s, lab, seeds, pending, Members(pending) + {point}, taken, dropped, n);
    }
  }

  // A new cell of the current component.
  method Join(s: Scene, labels: array2<int>, sizes: array<nat>, ring: Ring, point: Cell, n: Cell, mark: nat,
              ghost lab: Labelling, ghost seeds: seq<Cell>, ghost taken: nat)
    returns (ghost lab': Labelling)
    requires State(s, labels, sizes, lab, seeds) && Counted(ring, lab) && sizes as object != labels
    requires mark == |seeds| > 0 && Current(s, lab, point, mark) && s.On(n) && n !in lab && Adjacent(point, n)
             && taken > 0
    requires Growing(s, lab, seeds, ring.Contents(), Members(ring.Contents()) + {point}, taken, ring.Overflowed())
    modifies labels, sizes, ring, ring.cells
    ensures State(s, labels, sizes, lab', seeds) && Counted(ring, lab') && lab' == lab[n := mark]
    ensures Growing(s, lab', seeds, ring.Contents(), Members(ring.Contents()) + {point}, taken, ring.Overflowed())
    ensures ring.found == old(ring.found) + [old(ring.queued)]
  {
    ReachedFrom(s, lab, seeds, point, n);
    MarkForeground(s, labels, sizes, n, mark, lab, seeds);
    lab' := lab[n := mark];
    Enqueue(s, ring, point, n, lab, seeds, taken);
  }

  // Taking a cell from the queue and settling it.
  lemma GrowPopped(s: Scene, lab: Labelling, seeds: seq<Cell>, pending: seq<Cell>, rest: seq<Cell>, point: Cell,
                   taken: nat, dropped: bool)
    requires Growing(s, lab, seeds, pending, Members(pending), taken, dropped) && pending == [point] + rest
    requires Sound(s, lab, seeds)
    ensures Growing(s, lab, seeds, rest, Members(rest) + {point}, taken + 1, dropped)
    ensures Current(s, lab, point, |seeds|)
  {
    assert point in pending;
    assert Members(pending) == Members(rest) + {point};
    assert Justified(s, point, lab[point], seeds);
  }

  lemma GrowSettled(s: Scene, lab: Labelling, seeds: seq<Cell>, pending: seq<Cell>, point: Cell,
                    taken: nat, dropped: bool)
    requires Growing(s, lab, seeds, pending, Members(pending) + {point}, taken, dropped)
    requires Current(s, lab, point, |seeds|) && (!dropped ==> Visited(s, lab, point, |seeds|, 4))
    ensures Growing(s, lab, seeds, pending, Members(pending), taken, dropped)
  {
    if !dropped {
      AllVisited(s, lab, point, |seeds|);
      ClosedLess(s, lab, Members(pending) + {point}, point);
      ClosedWider(s, lab, Members(pending) + {point} - {point}, Members(pending));
    }
  }

  lemma ClosedWider(s: Scene, lab: Labelling, open: set<Cell>, open': set<Cell>)
    requires ClosedExcept(s, lab, open) && open <= open'
    ensures ClosedExcept(s, lab, open')
  {
  }

  // ---------- termination ----------

  function Room(s: Scene, lab: Labelling): int { s.rows * s.columns - |lab| }

  lemma RoomLeft(s: Scene, lab: Labelling, seeds: seq<Cell>)
    requires Sound(s, lab, seeds)
    ensures Room(s, lab) >= 0
  {
    forall c | c in lab.Keys ensures c in GridCells(s.columns, s.rows) { assert Justified(s, c, lab[c], seeds); }
    SubsetSize(lab.Keys, GridCells(s.columns, s.rows));
    assert |lab.Keys| == |lab|;
  }

  lemma MoreLabels(lab: Labelling, lab': Labelling)
    requires Extends(lab, lab')
    ensures lab' == lab || |lab'| > |lab|
  {
    assert lab.Keys <= lab'.Keys && |lab.Keys| == |lab| && |lab'.Keys| == |lab'|;
    SubsetSize(lab.Keys, lab'.Keys);
    if |lab'| <= |lab| { SameSizeSame(lab.Keys, lab'.Keys); }
  }

  lemma SameSizeSame(a: set<Cell>, b: set<Cell>)
    requires a <= b && |b| <= |a|
    ensures a == b
  {
    DisjointSum(a, b - a);
    assert a + (b - a) == b;
    assert |b - a| == 0;
  }

  // All four neighbours of a point.
  method VisitAll(s: Scene, labels: array2<int>, sizes: array<nat>, ring: Ring, point: Cell, mark: nat,
                  ghost lab: Labelling, ghost seeds: seq<Cell>, ghost taken: nat)
    returns (ghost lab': Labelling)
    requires State(s, labels, sizes, lab, seeds) && Counted(ring, lab) && sizes as object != labels
    requires mark == |seeds| > 0 && Current(s, lab, point, mark) && taken > 0
    requires Growing(s, lab, seeds, ring.Contents(), Members(ring.Contents()) + {point}, taken, ring.Overflowed())
    modifies labels, sizes, ring, ring.cells
    ensures State(s, labels, sizes, lab', seeds) && Counted(ring, lab') && Grown(lab, lab', mark)
    ensures Growing(s, lab', seeds, ring.Contents(), Members(ring.Contents()), taken, ring.Overflowed())
    ensures lab' == lab ==> ring.queued == old(ring.queued)
  {
    lab' := lab;
    for direction := 0 to 4
      invariant State(s, labels, sizes, lab', seeds) && Counted(ring, lab') && Grown(lab, lab', mark)
      invariant Growing(s, lab', seeds, ring.Contents(), Members(ring.Contents()) + {point}, taken, ring.Overflowed())
      invariant !ring.Overflowed() ==> Visited(s, lab', point, mark, direction)
      invariant |lab'| > |lab| || (lab' == lab && ring.queued == old(ring.queued))
    {
      ghost var before := lab';
      lab' := Visit(s, labels, sizes, ring, point, direction, mark, lab', seeds, taken);
      MoreLabels(before, lab');
      GrownThrough(lab, before, lab', mark);
    }
    GrowSettled(s, lab', seeds, ring.Contents(), point, taken, ring.Overflowed());
  }

  // One point leaves the queue and is settled.
  method GrowOne(s: Scene, labels: array2<int>, sizes: array<nat>, ring: Ring, mark: nat,
                 ghost before: Labelling, ghost seeds: seq<Cell>, ghost taken: nat)
    returns (ghost lab: Labelling)
    requires State(s, labels, sizes, before, seeds) && Counted(ring, before) && sizes as object != labels
             && mark == |seeds| > 0
    requires Growing(s, before, seeds, ring.Contents(), Members(ring.Contents()), taken, ring.Overflowed())
             && ring.queued > 0
    modifies labels, sizes, ring, ring.cells
    ensures State(s, labels, sizes, lab, seeds) && Counted(ring, lab) && Grown(before, lab, mark)
    ensures Growing(s, lab, seeds, ring.Contents(), Members(ring.Contents()), taken + 1, ring.Overflowed())
    ensures 0 <= Room(s, lab) <= Room(s, before) && (Room(s, lab) == Room(s, before) ==> ring.queued < old(ring.queued))
  {
    ghost var pending := ring.Contents();
    var point := ring.Pop();
    GrowPopped(s, before, seeds, pending, ring.Contents(), point, taken, ring.Overflowed());
    lab := VisitAll(s, labels, sizes, ring, point, mark, before, seeds, taken + 1);
    MoreLabels(before, lab);
    RoomLeft(s, lab, seeds);
  }

  // The flood fill of one component.
  method Grow(s: Scene, labels: array2<int>, sizes: array<nat>, ring: Ring, mark: nat,
              ghost start: Labelling, ghost seeds: seq<Cell>)
    returns (ghost lab: Labelling)
    requires State(s, labels, sizes, start, seeds) && Counted(ring, start) && sizes as object != labels
             && mark == |seeds| > 0
    requires Growing(s, start, seeds, ring.Contents(), Members(ring.Contents()), 0, ring.Overflowed())
    modifies labels, sizes, ring, ring.cells
    ensures State(s, labels, sizes, lab, seeds) && Counted(ring, lab) && Grown(start, lab, mark)
    ensures Scanned(s, lab, ring.Overflowed())
  {
    lab := start;
    ghost var taken: nat := 0;
    RoomLeft(s, lab, seeds);
    while ring.queued > 0
      invariant State(s, labels, sizes, lab, seeds) && Counted(ring, lab) && Grown(start, lab, mark)
      invariant Growing(s, lab, seeds, ring.Contents(), Members(ring.Contents()), taken, ring.Overflowed())
      invariant Room(s, lab) >= 0
      decreases Room(s, lab), ring.queued
    {
      ghost var before := lab;
      lab := GrowOne(s, labels, sizes, ring, mark, lab, seeds, taken);
      GrownThrough(start, before, lab, mark);
      taken := taken + 1;
    }
    if !ring.Overflowed() { ClosedWider(s, lab, Members(ring.Contents()), {}); }
  }

  // ---------- the scan ----------

  // What the scan has established between two components.
  ghost predicate Scanned(s: Scene, lab: Labelling, dropped: bool) {
    && (dropped ==> Big(lab))
    && (!dropped ==> ClosedExcept(s, lab, {}))
  }

  lemma NoCells(s: Scene, lab: Labelling, seeds: seq<Cell>)
    requires Sound(s, lab, seeds)
    ensures forall l :: l > |seeds| ==> CellsOf(lab, l) == {}
  {
    forall c | c in lab ensures lab[c] <= |seeds| { assert Justified(s, c, lab[c], seeds); }
  }

  lemma GrowStart(s: Scene, lab: Labelling, seeds: seq<Cell>, c: Cell, dropped: bool)
    requires Scanned(s, lab, dropped) && Sound(s, lab, seeds) && c !in lab
    ensures var lab', seeds' := lab[c := |seeds| + 1], seeds + [c];
            Growing(s, lab', seeds', [c], Members([c]), 0, dropped)
  {
    CellsMore(lab, c, |seeds| + 1, |seeds| + 1);
    NoCells(s, lab, seeds);
    if dropped { BigMore(lab, c, |seeds| + 1); } else { ClosedMore(s, lab, {}, Members([c]), c, |seeds| + 1); }
  }

  method StartComponent(s: Scene, labels: array2<int>, sizes: array<nat>, ring: Ring, c: Cell, mark: nat,
                        ghost start: Labelling, ghost seeds: seq<Cell>)
    returns (ghost lab: Labelling)
    requires State(s, labels, sizes, start, seeds) && Counted(ring, start) && sizes as object != labels
    requires Scanned(s, start, ring.Overflowed()) && s.On(c) && c !in start && mark == |seeds| + 1 < sizes.Length
    modifies labels, sizes, ring, ring.cells
    ensures State(s, labels, sizes, lab, seeds + [c]) && Counted(ring, lab)
    ensures Scanned(s, lab, ring.Overflowed()) && Grown(start, lab, mark) && c in lab && lab[c] == mark
  {
    MarkSeed(s, labels, sizes, c, mark, start, seeds);
    QueueSeed(s, ring, c, start, seeds);
    lab := Grow(s, labels, sizes, ring, mark, start[c := mark], seeds + [c]);
    GrownThrough(start, start[c := mark], lab, mark);
  }

  // The emptied queue always has room.
  method QueueSeed(s: Scene, ring: Ring, c: Cell, ghost start: Labelling, ghost seeds: seq<Cell>)
    requires Counted(ring, start) && Scanned(s, start, ring.Overflowed()) && Sound(s, start, seeds) && c !in start
    modifies ring, ring.cells
    ensures var lab := start[c := |seeds| + 1];
            && Counted(ring, lab)
            && Growing(s, lab, seeds + [c], ring.Contents(), Members(ring.Contents()), 0, ring.Overflowed())
  {
    GrowStart(s, start, seeds, c, ring.Overflowed());
    ReachedMore(start, c, |seeds| + 1);
    ring.Reset();
    var _ := ring.Push(c);
  }

  // Row by row, from left to right.
  predicate Precedes(a: Cell, b: Cell) { a.y < b.y || (a.y == b.y && a.x < b.x) }

  // The cells up to a position have labels.
  ghost predicate CoveredTo(s: Scene, lab: Labelling, x: int, y: int) {
    forall c :: s.Has(c) && Precedes(c, Cell(x, y)) ==> c in lab
  }

  // Components are numbered in the order of their first cells: the cells they
  // were started from ascend, carry their own number, and no cell of a
  // component comes before its first one.
  ghost predicate Numbered(s: Scene, lab: Labelling, seeds: seq<Cell>) {
    && Ascending(seeds)
    && (forall i :: 0 <= i < |seeds| ==> SeedMarked(s, lab, seeds, i))
    && (forall c :: c in lab ==> NotEarly(lab, seeds, c))
  }

  ghost predicate Ascending(seeds: seq<Cell>) { forall i, j :: 0 <= i < j < |seeds| ==> Precedes(seeds[i], seeds[j]) }

  ghost predicate SeedMarked(s: Scene, lab: Labelling, seeds: seq<Cell>, i: nat)
    requires i < |seeds|
  {
    s.On(seeds[i]) && seeds[i] in lab && lab[seeds[i]] == i + 1
  }

  ghost predicate NotEarly(lab: Labelling, seeds: seq<Cell>, c: Cell)
    requires c in lab
  {
    0 < lab[c] <= |seeds| ==> !Precedes(c, seeds[lab[c] - 1])
  }

  ghost predicate AllPrecede(seeds: seq<Cell>, c: Cell) { forall i :: 0 <= i < |seeds| ==> Precedes(seeds[i], c) }

  // The scan has reached a position.
  ghost predicate ScannedTo(s: Scene, lab: Labelling, seeds: seq<Cell>, x: int, y: int) {
    CoveredTo(s, lab, x, y) && Numbered(s, lab, seeds) && AllPrecede(seeds, Cell(x, y))
  }

  lemma NumberedBackground(s: Scene, lab: Labelling, seeds: seq<Cell>, c: Cell)
    requires Numbered(s, lab, seeds) && c !in lab
    ensures Numbered(s, lab[c := 0], seeds)
  {
    var lab' := lab[c := 0];
    forall i | 0 <= i < |seeds| ensures SeedMarked(s, lab', seeds, i) { assert SeedMarked(s, lab, seeds, i); }
    forall a | a in lab' ensures NotEarly(lab', seeds, a) { if a != c { assert NotEarly(lab, seeds, a); } }
  }

  lemma SeedsStayMarked(s: Scene, start: Labelling, lab: Labelling, seeds: seq<Cell>, c: Cell)
    requires forall i :: 0 <= i < |seeds| ==> SeedMarked(s, start, seeds, i)
    requires Extends(start, lab) && s.On(c) && c in lab && lab[c] == |seeds| + 1
    ensures forall i :: 0 <= i < |seeds| + 1 ==> SeedMarked(s, lab, seeds + [c], i)
  {
    forall i | 0 <= i < |seeds| + 1 ensures SeedMarked(s, lab, seeds + [c], i) {
      if i < |seeds| { assert SeedMarked(s, start, seeds, i); }
    }
  }

  // A new component is started from the first cell without a label, so all its
  // cells come later.
  lemma NoneEarly(s: Scene, start: Labelling, lab: Labelling, seeds: seq<Cell>, c: Cell, a: Cell)
    requires CoveredTo(s, start, c.x, c.y) && c !in start && s.Has(a)
    requires Grown(start, lab, |seeds| + 1) && a in lab
    requires a in start ==> NotEarly(start, seeds, a) && start[a] <= |seeds|
    ensures NotEarly(lab, seeds + [c], a)
  {
    assert Cell(c.x, c.y) == c;
    if a in start { assert lab[a] == start[a]; }
  }

  lemma NumberedMore(s: Scene, start: Labelling, lab: Labelling, seeds: seq<Cell>, c: Cell)
    requires ScannedTo(s, start, seeds, c.x, c.y) && c !in start && s.On(c)
    requires Grown(start, lab, |seeds| + 1) && c in lab && lab[c] == |seeds| + 1
    requires (forall a :: a in start ==> start[a] <= |seeds|) && forall a :: a in lab ==> s.Has(a)
    ensures Numbered(s, lab, seeds + [c])
  {
    SeedsStayMarked(s, start, lab, seeds, c);
    AscendingMore(seeds, c);
    forall a | a in lab ensures NotEarly(lab, seeds + [c], a) { NoneEarly(s, start, lab, seeds, c, a); }
  }

  lemma AscendingMore(seeds: seq<Cell>, c: Cell)
    requires Ascending(seeds) && AllPrecede(seeds, Cell(c.x, c.y))
    ensures Ascending(seeds + [c])
  {
    assert Cell(c.x, c.y) == c;
  }

  lemma LabelsCounted(s: Scene, lab: Labelling, seeds: seq<Cell>)
    requires Sound(s, lab, seeds)
    ensures forall a :: a in lab ==> lab[a] <= |seeds|
    ensures forall a :: a in lab ==> s.Has(a)
  {
    forall a | a in lab ensures lab[a] <= |seeds| && s.Has(a) { assert Justified(s, a, lab[a], seeds); }
  }

  lemma EmptyState(s: Scene, labels: array2<int>, sizes: array<nat>)
    requires labels.Length0 == s.rows && labels.Length1 == s.columns && sizes.Length > 1
    requires forall i, j :: 0 <= i < s.rows && 0 <= j < s.columns ==> labels[i, j] == -1
    requires forall l :: 0 <= l < sizes.Length ==> sizes[l] == 0
    ensures State(s, labels, sizes, map[], []) && Scanned(s, map[], false) && Reached(map[]) == {}
  {
    forall l | 1 <= l < sizes.Length ensures CellsOf(map[], l) == {} { }
  }

  // One position of the scan.
  method ScanCell(s: Scene, labels: array2<int>, sizes: array<nat>, ring: Ring, c: Cell, count: nat,
                  ghost start: Labelling, ghost seeds: seq<Cell>)
    returns (count': nat, ghost lab: Labelling, ghost seeds': seq<Cell>)
    requires State(s, labels, sizes, start, seeds) && Counted(ring, start) && sizes as object != labels
    requires Scanned(s, start, ring.Overflowed()) && s.Has(c) && count == |seeds| < sizes.Length - 1
    requires ScannedTo(s, start, seeds, c.x, c.y)
    modifies labels, sizes, ring, ring.cells
    ensures State(s, labels, sizes, lab, seeds') && Counted(ring, lab) && count' == |seeds'| <= count + 1
    ensures Scanned(s, lab, ring.Overflowed()) && Extends(start, lab) && c in lab
    ensures Numbered(s, lab, seeds') && (seeds' == seeds || seeds' == seeds + [c])
  {
    count', lab, seeds' := count, start, seeds;
    Unlabelled(s, labels, start, seeds, c);
    if labels[c.y, c.x] != -1 { return; }
    if !s.foreground(c) {
      MarkBackground(s, labels, sizes, c, start, seeds);
      ReachedMore(start, c, 0);
      lab := start[c := 0];
      if ring.Overflowed() { BigMore(start, c, 0); } else { ClosedMore(s, start, {}, {}, c, 0); }
      NumberedBackground(s, start, seeds, c);
      return;
    }
    count' := count + 1;
    seeds' := seeds + [c];
    lab := StartComponent(s, labels, sizes, ring, c, count', start, seeds);
    NewComponent(s, start, lab, seeds, c);
  }

  lemma NewComponent(s: Scene, start: Labelling, lab: Labelling, seeds: seq<Cell>, c: Cell)
    requires ScannedTo(s, start, seeds, c.x, c.y) && Sound(s, start, seeds) && Sound(s, lab, seeds + [c])
    requires c !in start && s.On(c) && Grown(start, lab, |seeds| + 1) && c in lab && lab[c] == |seeds| + 1
    ensures Numbered(s, lab, seeds + [c])
  {
    LabelsCounted(s, start, seeds);
    LabelsCounted(s, lab, seeds + [c]);
    NumberedMore(s, start, lab, seeds, c);
  }

  method Clear(s: Scene, labels: array2<int>, sizes: array<nat>)
    requires labels.Length0 == s.rows && labels.Length1 == s.columns && sizes as object != labels
    modifies labels, sizes
    ensures forall i, j :: 0 <= i < s.rows && 0 <= j < s.columns ==> labels[i, j] == -1
    ensures forall l :: 0 <= l < sizes.Length ==> sizes[l] == 0
  {
    forall i, j | 0 <= i < s.rows && 0 <= j < s.columns { labels[i, j] := -1; }
    forall l | 0 <= l < sizes.Length { sizes[l] := 0; }
  }

  predicate Refused(s: Scene, maximum: int) {
    maximum <= 0 || s.rows == 0 || s.columns == 0 || s.rows * s.columns > MAX_PIXELS
  }

  // One row; the scan ends as soon as the maximum is reached.
  method ScanRow(s: Scene, labels: array2<int>, sizes: array<nat>, ring: Ring, y: nat, maximum: nat, count: nat,
                 ghost start: Labelling, ghost seeds: seq<Cell>)
    returns (count': nat, ghost lab: Labelling, ghost seeds': seq<Cell>)
    requires State(s, labels, sizes, start, seeds) && Counted(ring, start) && sizes as object != labels
    requires Scanned(s, start, ring.Overflowed()) && y < s.rows && count == |seeds| < maximum == sizes.Length - 1
    requires ScannedTo(s, start, seeds, 0, y)
    modifies labels, sizes, ring, ring.cells
    ensures State(s, labels, sizes, lab, seeds') && Counted(ring, lab) && count' == |seeds'| <= maximum
    ensures Scanned(s, lab, ring.Overflowed())
    ensures count' < maximum ==> ScannedTo(s, lab, seeds', 0, y + 1)
    ensures count' == maximum ==> StoppedAt(s, lab, seeds')
  {
    count', lab, seeds' := count, start, seeds;
    for x := 0 to s.columns
      invariant State(s, labels, sizes, lab, seeds') && Counted(ring, lab)
      invariant Scanned(s, lab, ring.Overflowed()) && count' == |seeds'| < maximum && ScannedTo(s, lab, seeds', x, y)
    {
      ghost var before, old' := lab, seeds';
      count', lab, seeds' := ScanCell(s, labels, sizes, ring, Cell(x, y), count', lab, seeds');
      ScanOne(s, before, lab, old', seeds', x, y);
      if count' >= maximum { return; }
    }
    NextRow(s, lab, seeds', y);
  }

  // The scan stopped at its last component: every cell before that one's first
  // cell has a label.
  ghost predicate StoppedAt(s: Scene, lab: Labelling, seeds: seq<Cell>) {
    Numbered(s, lab, seeds) && seeds != [] && CoveredTo(s, lab, seeds[|seeds| - 1].x, seeds[|seeds| - 1].y)
  }

  lemma ScanOne(s: Scene, before: Labelling, lab: Labelling, seeds: seq<Cell>, seeds': seq<Cell>, x: int, y: int)
    requires CoveredTo(s, before, x, y) && AllPrecede(seeds, Cell(x, y)) && Extends(before, lab) && Cell(x, y) in lab
    requires Numbered(s, lab, seeds') && (seeds' == seeds || seeds' == seeds + [Cell(x, y)])
    ensures ScannedTo(s, lab, seeds', x + 1, y)
    ensures |seeds'| > |seeds| ==> StoppedAt(s, lab, seeds')
  {
    CoverOne(s, before, lab, x, y);
    forall i | 0 <= i < |seeds'| ensures Precedes(seeds'[i], Cell(x + 1, y)) {
      if i < |seeds| { assert Precedes(seeds[i], Cell(x, y)); }
    }
    CoveredBefore(s, lab, x, y);
  }

  lemma CoveredBefore(s: Scene, lab: Labelling, x: int, y: int)
    requires CoveredTo(s, lab, x + 1, y)
    ensures CoveredTo(s, lab, x, y)
  {
    forall c | s.Has(c) && Precedes(c, Cell(x, y)) ensures c in lab { assert Precedes(c, Cell(x + 1, y)); }
  }

  lemma NextRow(s: Scene, lab: Labelling, seeds: seq<Cell>, y: int)
    requires ScannedTo(s, lab, seeds, s.columns, y)
    ensures ScannedTo(s, lab, seeds, 0, y + 1)
  {
    forall i | 0 <= i < |seeds| ensures Precedes(seeds[i], Cell(0, y + 1)) {
      assert Precedes(seeds[i], Cell(s.columns, y));
    }
    forall c | s.Has(c) && Precedes(c, Cell(0, y + 1)) ensures c in lab {
      assert Precedes(c, Cell(s.columns, y));
    }
  }

  lemma CoverOne(s: Scene, before: Labelling, lab: Labelling, x: int, y: int)
    requires CoveredTo(s, before, x, y) && Extends(before, lab) && Cell(x, y) in lab
    ensures CoveredTo(s, lab, x + 1, y)
  {
    forall c | s.Has(c) && Precedes(c, Cell(x + 1, y)) ensures c in lab {
      if c != Cell(x, y) { assert c in before; }
    }
  }

  method ScanAll(s: Scene, labels: array2<int>, sizes: array<nat>, ring: Ring, maximum: nat)
    returns (count: nat, ghost lab: Labelling, ghost seeds: seq<Cell>)
    requires State(s, labels, sizes, map[], []) && Counted(ring, map[]) && ring.found == [] && sizes as object != labels
    requires Scanned(s, map[], false) && maximum == sizes.Length - 1 && maximum > 0
    modifies labels, sizes, ring, ring.cells
    ensures State(s, labels, sizes, lab, seeds) && Counted(ring, lab) && count == |seeds| <= maximum
    ensures Scanned(s, lab, ring.Overflowed())
    ensures count < maximum ==> ScannedTo(s, lab, seeds, 0, s.rows)
    ensures count == maximum ==> StoppedAt(s, lab, seeds)
  {
    count, lab, seeds := 0, map[], [];
    for y := 0 to s.rows
      invariant State(s, labels, sizes, lab, seeds) && Counted(ring, lab)
      invariant Scanned(s, lab, ring.Overflowed()) && count == |seeds| < maximum && ScannedTo(s, lab, seeds, 0, y)
    {
      count, lab, seeds := ScanRow(s, labels, sizes, ring, y, maximum, count, lab, seeds);
      if count >= maximum { return; }
    }
  }

  // ---------- what the labels mean ----------

  // Two foreground cells have the same label exactly when they are connected.
  ghost predicate SameComponentSameLabel(s: Scene, labels: array2<int>)
    requires labels.Length0 == s.rows && labels.Length1 == s.columns
    reads labels
  {
    forall a, b :: s.On(a) && s.On(b) ==> (labels[a.y, a.x] == labels[b.y, b.x] <==> Connected(s, a, b))
  }

  // The same for the labels given before the scan stopped at the maximum: a
  // component is labelled as a whole or not at all.
  ghost predicate WholeComponents(s: Scene, labels: array2<int>)
    requires labels.Length0 == s.rows && labels.Length1 == s.columns
    reads labels
  {
    forall a, b :: s.On(a) && s.On(b) && labels[a.y, a.x] > 0 ==>
        (labels[a.y, a.x] == labels[b.y, b.x] <==> Connected(s, a, b))
  }

  // Equal positive labels always mean connected cells, full queue or not.
  ghost predicate EqualLabelsConnected(s: Scene, labels: array2<int>)
    requires labels.Length0 == s.rows && labels.Length1 == s.columns
    reads labels
  {
    forall a, b :: s.Has(a) && s.Has(b) && labels[a.y, a.x] == labels[b.y, b.x] > 0 ==> Connected(s, a, b)
  }

  lemma LabelsAreSound(s: Scene, labels: array2<int>, lab: Labelling, seeds: seq<Cell>)
    requires Linked(s, labels, lab) && Sound(s, lab, seeds)
    ensures EqualLabelsConnected(s, labels)
  {
    forall a, b | s.Has(a) && s.Has(b) && labels[a.y, a.x] == labels[b.y, b.x] > 0 ensures Connected(s, a, b) {
      SameLabelConnected(s, lab, seeds, a, b);
    }
  }

  // If no push found the queue full, labels given are exact, whatever the grid.
  lemma LabelledIsWhole(s: Scene, labels: array2<int>, lab: Labelling, seeds: seq<Cell>)
    requires Linked(s, labels, lab) && Sound(s, lab, seeds) && Scanned(s, lab, false)
    ensures WholeComponents(s, labels)
  {
    forall a, b | s.On(a) && s.On(b) && labels[a.y, a.x] > 0
      ensures labels[a.y, a.x] == labels[b.y, b.x] <==> Connected(s, a, b)
    {
      if labels[a.y, a.x] == labels[b.y, b.x] { SameLabelConnected(s, lab, seeds, a, b); }
      if Connected(s, a, b) { ConnectedSameLabel(s, lab, a, b); }
    }
  }

  // And if all cells were reached, two foreground cells have the same label
  // exactly when they are connected.
  lemma LabellingIsExact(s: Scene, labels: array2<int>, lab: Labelling, seeds: seq<Cell>)
    requires Linked(s, labels, lab) && Sound(s, lab, seeds) && Scanned(s, lab, false) && CoveredTo(s, lab, 0, s.rows)
    ensures SameComponentSameLabel(s, labels)
  {
    LabelledIsWhole(s, labels, lab, seeds);
    forall a | s.On(a) ensures labels[a.y, a.x] > 0 { assert Justified(s, a, lab[a], seeds); }
  }

  // Some counted component has more cells than the queue and its point.
  ghost predicate BigSize(sizes: array<nat>, count: int)
    reads sizes
  {
    exists l :: 1 <= l <= count && l < sizes.Length && sizes[l] > CAPACITY + 1
  }

  // When the queue overflowed, the sizes show it.
  lemma OverflowShows(s: Scene, labels: array2<int>, sizes: array<nat>, lab: Labelling, seeds: seq<Cell>)
    requires State(s, labels, sizes, lab, seeds) && Big(lab)
    ensures BigSize(sizes, |seeds|) && s.rows * s.columns > CAPACITY + 1
  {
    var l :| l > 0 && |CellsOf(lab, l)| > CAPACITY + 1;
    NoCells(s, lab, seeds);
    assert sizes[l] == |CellsOf(lab, l)|;
    BigGrid(s, lab, seeds);
  }

  // Component l is the one whose first cell, row by row from left to right, is
  // the l-th of all first cells.
  ghost predicate NumberedInOrder(s: Scene, labels: array2<int>, seeds: seq<Cell>)
    requires labels.Length0 == s.rows && labels.Length1 == s.columns
    reads labels
  {
    && Ascending(seeds)
    && (forall i :: 0 <= i < |seeds| ==> s.On(seeds[i]) && labels[seeds[i].y, seeds[i].x] == i + 1)
    && forall c :: s.Has(c) && labels[c.y, c.x] > 0 ==>
         labels[c.y, c.x] <= |seeds| && !Precedes(c, seeds[labels[c.y, c.x] - 1])
  }

  lemma NumbersShow(s: Scene, labels: array2<int>, lab: Labelling, seeds: seq<Cell>)
    requires Linked(s, labels, lab) && Sound(s, lab, seeds) && Numbered(s, lab, seeds)
    ensures NumberedInOrder(s, labels, seeds)
    ensures forall c :: s.Has(c) ==> (labels[c.y, c.x] == -1 <==> c !in lab)
  {
    forall c | s.Has(c)
      ensures labels[c.y, c.x] == -1 <==> c !in lab
      ensures labels[c.y, c.x] > 0 ==> labels[c.y, c.x] <= |seeds| && !Precedes(c, seeds[labels[c.y, c.x] - 1])
    {
      if c in lab { assert Justified(s, c, lab[c], seeds) && NotEarly(lab, seeds, c); }
    }
    forall i | 0 <= i < |seeds| ensures s.On(seeds[i]) && labels[seeds[i].y, seeds[i].x] == i + 1 {
      assert SeedMarked(s, lab, seeds, i);
    }
  }

  // One push for every cell reached, none onto more than the queue holds.
  ghost predicate PushesFound(found: seq<nat>, lab: Labelling) {
    |found| == |Reached(lab)| && forall i :: 0 <= i < |found| ==> found[i] <= CAPACITY
  }

  // The scan of a grid with nothing labelled and an empty queue.
  method ScanFresh(s: Scene, labels: array2<int>, sizes: array<nat>, maximum: nat)
    returns (count: nat, ghost found: seq<nat>, ghost lab: Labelling, ghost seeds: seq<Cell>)
    requires labels.Length0 == s.rows && labels.Length1 == s.columns && sizes as object != labels
    requires sizes.Length == maximum + 1 > 1
    modifies labels, sizes
    ensures State(s, labels, sizes, lab, seeds) && count == |seeds| <= maximum
    ensures PushesFound(found, lab) && Scanned(s, lab, CAPACITY in found)
    ensures count < maximum ==> ScannedTo(s, lab, seeds, 0, s.rows)
    ensures count == maximum ==> StoppedAt(s, lab, seeds)
  {
    var ring := new Ring();
    Clear(s, labels, sizes);
    EmptyState(s, labels, sizes);
    count, lab, seeds := ScanAll(s, labels, sizes, ring, maximum);
    found := ring.found;
  }

  // A grid that is not refused.
  method LabelGrid(s: Scene, labels: array2<int>, sizes: array<nat>, maximum: nat)
    returns (count: nat, ghost found: seq<nat>, ghost lab: Labelling, ghost seeds: seq<Cell>)
    requires labels.Length0 == s.rows && labels.Length1 == s.columns && sizes as object != labels
    requires sizes.Length == maximum + 1 > 1
    modifies labels, sizes
    ensures count == |seeds| <= maximum && State(s, labels, sizes, lab, seeds)
    ensures EqualLabelsConnected(s, labels) && PushesFound(found, lab) && NumberedInOrder(s, labels, seeds)
    ensures CAPACITY in found ==> BigSize(sizes, count) && s.rows * s.columns > CAPACITY + 1
    ensures CAPACITY !in found ==> WholeComponents(s, labels)
    ensures count < maximum ==> CoveredTo(s, lab, 0, s.rows)
    ensures count < maximum && CAPACITY !in found ==> SameComponentSameLabel(s, labels)
    ensures count == maximum ==> seeds != [] && VisitedBefore(s, labels, seeds[|seeds| - 1])
  {
    count, found, lab, seeds := ScanFresh(s, labels, sizes, maximum);
    Conclude(s, labels, sizes, lab, seeds, CAPACITY in found);
    NumbersShow(s, labels, lab, seeds);
    if count == maximum {
      StoppedShows(s, labels, lab, seeds);
    } else if CAPACITY !in found {
      LabellingIsExact(s, labels, lab, seeds);
    }
  }

  // Labels, sizes and what they mean. `found` is the queue length that each
  // push found, one push for every foreground cell labelled; a cell was dropped
  // when some push found the queue full. Then some component is larger than the
  // queue; otherwise the labels are exact.
  method LabelComponents(s: Scene, labels: array2<int>, sizes: array<nat>, maximum: int)
    returns (count: int, ghost found: seq<nat>, ghost lab: Labelling, ghost seeds: seq<Cell>)
    requires labels.Length0 == s.rows && labels.Length1 == s.columns && sizes as object != labels
    requires maximum > 0 ==> sizes.Length == maximum + 1
    modifies labels, sizes
    ensures count == -1 <==> Refused(s, maximum)
    ensures count != -1 ==> 0 <= count <= maximum && count == |seeds| && State(s, labels, sizes, lab, seeds)
    ensures count != -1 ==>
              EqualLabelsConnected(s, labels) && PushesFound(found, lab) && NumberedInOrder(s, labels, seeds)
    ensures count != -1 && CAPACITY in found ==> BigSize(sizes, count) && s.rows * s.columns > CAPACITY + 1
    ensures count != -1 && CAPACITY !in found ==> WholeComponents(s, labels)
    ensures 0 <= count < maximum ==> CoveredTo(s, lab, 0, s.rows)
    ensures 0 <= count < maximum && CAPACITY !in found ==> SameComponentSameLabel(s, labels)
    ensures count == maximum > 0 ==> seeds != [] && VisitedBefore(s, labels, seeds[|seeds| - 1])
  {
    count, found, lab, seeds := -1, [], map[], [];
    if !Refused(s, maximum) {
      count, found, lab, seeds := LabelGrid(s, labels, sizes, maximum);
    }
  }

  // Every cell that precedes the given one was reached.
  ghost predicate VisitedBefore(s: Scene, labels: array2<int>, last: Cell)
    requires labels.Length0 == s.rows && labels.Length1 == s.columns
    reads labels
  {
    forall c :: s.Has(c) && Precedes(c, last) ==> labels[c.y, c.x] != -1
  }

  lemma StoppedShows(s: Scene, labels: array2<int>, lab: Labelling, seeds: seq<Cell>)
    requires Linked(s, labels, lab) && Sound(s, lab, seeds) && StoppedAt(s, lab, seeds)
    ensures VisitedBefore(s, labels, seeds[|seeds| - 1])
  {
    NumbersShow(s, labels, lab, seeds);
  }

  lemma Conclude(s: Scene, labels: array2<int>, sizes: array<nat>, lab: Labelling, seeds: seq<Cell>, dropped: bool)
    requires State(s, labels, sizes, lab, seeds) && Scanned(s, lab, dropped)
    ensures EqualLabelsConnected(s, labels)
    ensures dropped ==> BigSize(sizes, |seeds|) && s.rows * s.columns > CAPACITY + 1
    ensures !dropped ==> WholeComponents(s, labels)
  {
    LabelsAreSound(s, labels, lab, seeds);
    if dropped { OverflowShows(s, labels, sizes, lab, seeds); } else { LabelledIsWhole(s, labels, lab, seeds); }
  }

  // No grid of up to 2451 cells, and no scene whose components all have at most
  // 2451 cells, can overflow the queue: there the labels are always exact.
  lemma SmallComponentsAreExact(s: Scene, labels: array2<int>, sizes: array<nat>, lab: Labelling, seeds: seq<Cell>,
                                dropped: bool)
    requires State(s, labels, sizes, lab, seeds) && Scanned(s, lab, dropped) && CoveredTo(s, lab, 0, s.rows)
    requires s.rows * s.columns <= CAPACITY + 1 || !BigSize(sizes, |seeds|)
    ensures SameComponentSameLabel(s, labels)
  {
    if dropped { OverflowShows(s, labels, sizes, lab, seeds); }
    LabellingIsExact(s, labels, lab, seeds);
  }
}
