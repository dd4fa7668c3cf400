// Filling never joins components and never makes new ones: every component of
// the filled image holds exactly one component of the input.
module FillTopology {
  import opened Words
  import opened Components
  import opened PatternFill
  import opened FillTable

  // The set pixels of an image.
  function Odds(bits: Digits, width: nat, height: nat): Scene {
    Scene(height, width, (c: Cell) => bits(c.x, c.y) == 1)
  }

  // ---------- around one pixel ----------

  function Beside(c: Cell, dx: int, dy: int): Cell { Cell(c.x + dx, c.y + dy) }

  // The pixel may be filled: its set sides form one chain.
  ghost predicate Around(s: Scene, c: Cell) {
    Fills(s.On(Beside(c, -1, 1)), s.On(Beside(c, 0, 1)), s.On(Beside(c, 1, 1)), s.On(Beside(c, -1, 0)),
          s.On(Beside(c, 1, 0)), s.On(Beside(c, -1, -1)), s.On(Beside(c, 0, -1)), s.On(Beside(c, 1, -1)))
  }

  // Any two set sides are joined one way round or the other.
  lemma OneChain(bl: bool, b: bool, br: bool, l: bool, r: bool, tl: bool, t: bool, tr: bool)
    requires Fills(bl, b, br, l, r, tl, t, tr)
    ensures r || t || l || b
    ensures var rt, lt, lb, rb := r && tr && t, t && tl && l, l && bl && b, b && br && r;
            && (r && t ==> rt || (lt && lb && rb)) && (t && l ==> lt || (lb && rb && rt))
            && (l && b ==> lb || (rb && rt && lt)) && (b && r ==> rb || (rt && lt && lb))
            && (r && l ==> (rt && lt) || (lb && rb)) && (t && b ==> (lt && lb) || (rb && rt))
  {
  }

  ghost predicate Joined(s: Scene, a: Cell, b: Cell) { Connected(s, a, b) && Connected(s, b, a) }

  lemma JoinedByCorner(s: Scene, a: Cell, m: Cell, b: Cell)
    requires s.On(a) && s.On(m) && s.On(b) && Adjacent(a, m) && Adjacent(m, b)
    ensures Joined(s, a, b)
  {
    ConnectedSelf(s, a);
    ConnectedStep(s, a, a, m);
    ConnectedStep(s, a, m, b);
    ConnectedBack(s, a, b);
  }

  lemma JoinedVia(s: Scene, a: Cell, b: Cell, c: Cell)
    requires Joined(s, a, b) && Joined(s, b, c)
    ensures Joined(s, a, c)
  {
    ConnectedThrough(s, a, b, c);
    ConnectedThrough(s, c, b, a);
  }

  // Four cells in a circle, some neighbours joined.
  lemma Circle(s: Scene, a: Cell, b: Cell, c: Cell, d: Cell, ab: bool, bc: bool, cd: bool, da: bool)
    requires (ab ==> Joined(s, a, b)) && (bc ==> Joined(s, b, c)) && (cd ==> Joined(s, c, d))
             && (da ==> Joined(s, d, a))
    ensures ab || (bc && cd && da) ==> Joined(s, a, b)
    ensures (ab && bc) || (cd && da) ==> Joined(s, a, c)
  {
    if ab && bc {
      JoinedVia(s, a, b, c);
    } else if cd && da {
      JoinedVia(s, c, d, a);
      if bc { JoinedVia(s, a, c, b); }
    }
  }

  // All set sides of the pixel are connected without it.
  lemma SidesJoined(s: Scene, c: Cell)
    requires Around(s, c)
    ensures var r, t, l, b := Beside(c, 1, 0), Beside(c, 0, -1), Beside(c, -1, 0), Beside(c, 0, 1);
            && (s.On(r) && s.On(t) ==> Joined(s, r, t)) && (s.On(t) && s.On(l) ==> Joined(s, t, l))
            && (s.On(l) && s.On(b) ==> Joined(s, l, b)) && (s.On(b) && s.On(r) ==> Joined(s, b, r))
            && (s.On(r) && s.On(l) ==> Joined(s, r, l)) && (s.On(t) && s.On(b) ==> Joined(s, t, b))
            && (s.On(r) || s.On(t) || s.On(l) || s.On(b))
  {
    var r, t, l, b := Beside(c, 1, 0), Beside(c, 0, -1), Beside(c, -1, 0), Beside(c, 0, 1);
    var tr, tl, bl, br := Beside(c, 1, -1), Beside(c, -1, -1), Beside(c, -1, 1), Beside(c, 1, 1);
    var rt, lt := s.On(r) && s.On(tr) && s.On(t), s.On(t) && s.On(tl) && s.On(l);
    var lb, rb := s.On(l) && s.On(bl) && s.On(b), s.On(b) && s.On(br) && s.On(r);
    if rt { JoinedByCorner(s, r, tr, t); }
    if lt { JoinedByCorner(s, t, tl, l); }
    if lb { JoinedByCorner(s, l, bl, b); }
    if rb { JoinedByCorner(s, b, br, r); }
    OneChain(s.On(bl), s.On(b), s.On(br), s.On(l), s.On(r), s.On(tl), s.On(t), s.On(tr));
    Circle(s, r, t, l, b, rt, lt, lb, rb);
    Circle(s, t, l, b, r, lt, lb, rb, rt);
    Circle(s, l, b, r, t, lb, rb, rt, lt);
    Circle(s, b, r, t, l, rb, rt, lt, lb);
  }

  lemma NeighboursConnected(s: Scene, c: Cell, u: Cell, v: Cell)
    requires Around(s, c) && s.On(u) && s.On(v) && Adjacent(u, c) && Adjacent(c, v)
    ensures Connected(s, u, v)
  {
    SidesJoined(s, c);
    SideIs(c, u);
    SideIs(c, v);
    if u == v { ConnectedSelf(s, u); }
  }

  lemma SideIs(c: Cell, u: Cell)
    ensures Adjacent(u, c) <==> Adjacent(c, u)
    ensures Adjacent(c, u) <==> u in {Beside(c, 1, 0), Beside(c, 0, -1), Beside(c, -1, 0), Beside(c, 0, 1)}
  {
  }

  // ---------- one pixel more ----------

  ghost predicate Added(s: Scene, s': Scene, c: Cell) {
    !s.On(c) && s'.On(c) && forall a :: a != c ==> (s'.On(a) <==> s.On(a))
  }

  lemma StillConnected(s: Scene, s': Scene, c: Cell, a: Cell, b: Cell)
    requires Added(s, s', c) && Connected(s, a, b)
    ensures Connected(s', a, b)
  {
    var p :| Path(s, p, a, b);
    assert Path(s', p, a, b);
  }

  // A path through the new pixel has a detour around it.
  lemma Detour(s: Scene, s': Scene, c: Cell, p: seq<Cell>, a: Cell, b: Cell)
    requires Added(s, s', c) && Around(s, c) && Path(s', p, a, b) && a != c && b != c
    ensures Connected(s, a, b)
    decreases |p|
  {
    assert s'.On(p[0]);
    if |p| == 1 {
      ConnectedSelf(s, a);
    } else if p[1] != c {
      TailPath(s', p, a, b);
      Detour(s, s', c, p[1..], p[1], b);
      ConnectedSelf(s, a);
      assert s'.On(p[1]) && Adjacent(p[0], p[1]);
      ConnectedStep(s, a, a, p[1]);
      ConnectedThrough(s, a, p[1], b);
    } else {
      assert |p| > 2;
      assert Adjacent(p[0], p[1]) && Adjacent(p[1], p[2]) && s'.On(p[2]);
      TailPath(s', p, a, b);
      TailPath(s', p[1..], p[1], b);
      Detour(s, s', c, p[1..][1..], p[2], b);
      NeighboursConnected(s, c, a, p[2]);
      ConnectedThrough(s, a, p[2], b);
    }
  }

  // One fill keeps which set pixels are connected, and the new pixel joins a
  // component that was there.
  lemma OneFill(s: Scene, s': Scene, c: Cell, a: Cell, b: Cell)
    requires Added(s, s', c) && Around(s, c) && s.On(a) && s.On(b)
    ensures Connected(s, a, b) <==> Connected(s', a, b)
  {
    if Connected(s, a, b) {
      StillConnected(s, s', c, a, b);
    }
    if Connected(s', a, b) {
      var p :| Path(s', p, a, b);
      Detour(s, s', c, p, a, b);
    }
  }

  lemma NewPixelJoins(s: Scene, s': Scene, c: Cell) returns (a: Cell)
    requires Added(s, s', c) && Around(s, c)
    ensures s.On(a) && Connected(s', a, c)
  {
    SidesJoined(s, c);
    a := if s.On(Beside(c, 1, 0)) then Beside(c, 1, 0) else if s.On(Beside(c, 0, -1)) then Beside(c, 0, -1)
         else if s.On(Beside(c, -1, 0)) then Beside(c, -1, 0) else Beside(c, 0, 1);
    SideIs(c, a);
    ConnectedSelf(s', a);
    ConnectedStep(s', a, a, c);
  }

  // ---------- a whole run ----------

  // The set pixels after some fills.
  function After(p: Image, fills: seq<Cell>, width: nat, height: nat): Scene {
    Odds(Parity(Painted(p, fills)), width, height)
  }

  lemma FillableFits(img: Image, width: nat, height: nat, c: Cell, d: Direction)
    requires width >= 3 && height >= 3 && Gaps(width, height).Fillable(img, c.x, c.y, d)
    ensures Fits(Parity(img), c.x, c.y) && img(c.x, c.y) == 0
  {
    TableMeaning(Parity(img), c.x, c.y);
  }

  lemma AllOn(bits: Digits, width: nat, height: nat, c: Cell, dx: int, dy: int)
    requires 1 <= c.x < width - 1 && 1 <= c.y < height - 1 && -1 <= dx <= 1 && -1 <= dy <= 1
    ensures Odds(bits, width, height).On(Beside(c, dx, dy)) <==> Odd(bits, c.x + dx, c.y + dy)
  {
  }

  lemma FitsAround(bits: Digits, width: nat, height: nat, c: Cell)
    requires 1 <= c.x < width - 1 && 1 <= c.y < height - 1 && Fits(bits, c.x, c.y)
    ensures Around(Odds(bits, width, height), c)
  {
    AllOn(bits, width, height, c, -1, 1);
    AllOn(bits, width, height, c, 0, 1);
    AllOn(bits, width, height, c, 1, 1);
    AllOn(bits, width, height, c, -1, 0);
    AllOn(bits, width, height, c, 1, 0);
    AllOn(bits, width, height, c, -1, -1);
    AllOn(bits, width, height, c, 0, -1);
    AllOn(bits, width, height, c, 1, -1);
  }

  lemma AddedPixel(bits: Digits, bits': Digits, width: nat, height: nat, c: Cell)
    requires 0 <= c.x < width && 0 <= c.y < height && bits(c.x, c.y) == 0 && bits'(c.x, c.y) == 1
    requires forall a: Cell :: a != c ==> bits'(a.x, a.y) == bits(a.x, a.y)
    ensures Added(Odds(bits, width, height), Odds(bits', width, height), c)
  {
  }

  // The lowest bit of a pixel after some fills.
  lemma PaintedBit(p: Image, fills: seq<Cell>, a: Cell)
    ensures Parity(Painted(p, fills))(a.x, a.y) == if a in fills then 1 else Bit(p(a.x, a.y))
  {
    assert Cell(a.x, a.y) == a;
    assert Painted(p, fills)(a.x, a.y) == if a in fills then 1 else p(a.x, a.y);
    assert Bit(1) == 1;
  }

  lemma PaintedMore(p: Image, before: seq<Cell>, c: Cell)
    ensures Parity(Painted(p, before + [c]))(c.x, c.y) == 1
    ensures forall a: Cell :: a != c ==>
              Parity(Painted(p, before + [c]))(a.x, a.y) == Parity(Painted(p, before))(a.x, a.y)
  {
    PaintedBit(p, before + [c], c);
    forall a: Cell | a != c
      ensures Parity(Painted(p, before + [c]))(a.x, a.y) == Parity(Painted(p, before))(a.x, a.y)
    {
      PaintedBit(p, before, a);
      PaintedBit(p, before + [c], a);
    }
  }

  lemma FillIsAdded(p: Image, before: seq<Cell>, c: Cell, width: nat, height: nat, d: Direction)
    requires width >= 3 && height >= 3 && Gaps(width, height).Inside(c.x, c.y)
    requires Gaps(width, height).Fillable(Painted(p, before), c.x, c.y, d)
    ensures Added(After(p, before, width, height), After(p, before + [c], width, height), c)
    ensures Around(After(p, before, width, height), c)
  {
    FillableFits(Painted(p, before), width, height, c, d);
    FitsAround(Parity(Painted(p, before)), width, height, c);
    PaintedMore(p, before, c);
    AddedPixel(Parity(Painted(p, before)), Parity(Painted(p, before + [c])), width, height, c);
  }

  lemma LastFill(p: Image, fills: seq<Cell>, width: nat, height: nat)
    requires fills != [] && width >= 3 && height >= 3 && Legal(Gaps(width, height), p, fills)
    ensures var n := |fills| - 1;
            && Added(After(p, fills[..n], width, height), After(p, fills, width, height), fills[n])
            && Around(After(p, fills[..n], width, height), fills[n])
            && Legal(Gaps(width, height), p, fills[..n])
  {
    var n := |fills| - 1;
    var r, c := Gaps(width, height), fills[n];
    assert LegalAt(r, p, fills, n);
    assert fills == fills[..n] + [c];
    FillIsAdded(p, fills[..n], c, width, height,
                if r.Fillable(Painted(p, fills[..n]), c.x, c.y, AlongRow) then AlongRow else AlongColumn);
    LegalPrefix(r, p, fills, n);
  }

  lemma LegalPrefix(r: Rule, p: Image, fills: seq<Cell>, n: nat)
    requires r.Sized() && n <= |fills| && Legal(r, p, fills)
    ensures Legal(r, p, fills[..n])
  {
    forall i | 0 <= i < n ensures LegalAt(r, p, fills[..n], i) {
      assert LegalAt(r, p, fills, i);
      assert fills[..n][..i] == fills[..i];
    }
  }

  lemma StillOn(p: Image, fills: seq<Cell>, width: nat, height: nat, a: Cell)
    requires After(p, [], width, height).On(a)
    ensures After(p, fills, width, height).On(a)
  {
    PaintedBit(p, [], a);
    PaintedBit(p, fills, a);
  }

  // Two set pixels of the input are connected after the filling exactly when
  // they were before: no two components grow together.
  lemma FillingJoinsNothing(p: Image, fills: seq<Cell>, width: nat, height: nat, a: Cell, b: Cell)
    requires width >= 3 && height >= 3 && Legal(Gaps(width, height), p, fills)
    requires After(p, [], width, height).On(a) && After(p, [], width, height).On(b)
    ensures Connected(After(p, fills, width, height), a, b) <==> Connected(After(p, [], width, height), a, b)
    decreases |fills|
  {
    if fills != [] {
      var n := |fills| - 1;
      LastFill(p, fills, width, height);
      FillingJoinsNothing(p, fills[..n], width, height, a, b);
      StillOn(p, fills[..n], width, height, a);
      StillOn(p, fills[..n], width, height, b);
      OneFill(After(p, fills[..n], width, height), After(p, fills, width, height), fills[n], a, b);
    }
  }

  // Every set pixel of the result is connected to one of the input: no
  // component is new.
  lemma FillingAddsNothing(p: Image, fills: seq<Cell>, width: nat, height: nat, c: Cell) returns (a: Cell)
    requires width >= 3 && height >= 3 && Legal(Gaps(width, height), p, fills)
    requires After(p, fills, width, height).On(c)
    ensures After(p, [], width, height).On(a) && Connected(After(p, fills, width, height), a, c)
    decreases |fills|
  {
    if fills == [] {
      ConnectedSelf(After(p, fills, width, height), c);
      a := c;
    } else {
      var n := |fills| - 1;
      var s, s' := After(p, fills[..n], width, height), After(p, fills, width, height);
      LastFill(p, fills, width, height);
      var via := c;
      if c == fills[n] { via := NewPixelJoins(s, s', c); } else { ConnectedSelf(s', c); }
      a := FillingAddsNothing(p, fills[..n], width, height, via);
      StillConnected(s, s', fills[n], a, via);
      ConnectedThrough(s', a, via, c);
    }
  }
}
