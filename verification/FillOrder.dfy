// The order of the scans leaves no choice: the filled image is the only one.
module FillOrder {
  import opened Words
  import opened Components
  import opened PatternFill

  // Up to fill k two scans of one line agree, so they agree on it too.
  lemma NextFillSame(can: Can, f: seq<int>, g: seq<int>, k: nat)
    requires Complete(can, f) && Complete(can, g) && k < |f| && k <= |g| && f[..k] == g[..k]
    ensures k < |g| && g[k] <= f[k]
  {
    assert Sensible(can, f, k);
    if k > 0 { assert f[k - 1] == f[..k][k - 1] == g[..k][k - 1] == g[k - 1]; }
    assert PassedOver(can, g, k, f[k]);
  }

  lemma {:induction false} LinesAgree(can: Can, f: seq<int>, g: seq<int>, k: nat)
    requires Complete(can, f) && Complete(can, g) && k <= |f| && k <= |g| && f[..k] == g[..k]
    ensures f == g
    decreases |f| - k
  {
    if k < |f| {
      NextFillSame(can, f, g, k);
      NextFillSame(can, g, f, k);
      assert f[..k + 1] == f[..k] + [f[k]] && g[..k + 1] == g[..k] + [g[k]];
      LinesAgree(can, f, g, k + 1);
    } else if k < |g| {
      NextFillSame(can, g, f, k);
    } else {
      assert f == f[..k] && g == g[..k];
    }
  }

  lemma LineIsDetermined(r: Rule, p: Image, d: Direction, line: int, start: seq<Cell>, f: seq<Cell>, g: seq<Cell>)
    requires LineDone(r, p, d, line, start, f) && LineDone(r, p, d, line, start, g)
    ensures f == g
  {
    var can := CanFill(r, p, d, line, start);
    var ts :| Complete(can, ts) && f == After(start, d, line, ts);
    var us :| Complete(can, us) && g == After(start, d, line, us);
    LinesAgree(can, ts, us, 0);
  }

  // Every line of the pass leaves no choice.
  ghost predicate Functional(lines: LineRule) {
    forall d, line, start, f, g :: lines(d, line, start, f) && lines(d, line, start, g) ==> f == g
  }

  lemma {:induction false} PassIsDetermined(r: Rule, lines: LineRule, start: seq<Cell>, f: seq<Cell>, g: seq<Cell>,
                                            j: nat)
    requires Functional(lines) && PassTo(r, lines, start, f, j) && PassTo(r, lines, start, g, j)
    ensures f == g
    decreases j
  {
    if j > 0 {
      var d, line := DirectionOf(r, j - 1), LineOf(r, j - 1);
      var m :| PassTo(r, lines, start, m, j - 1) && lines(d, line, m, f);
      var n :| PassTo(r, lines, start, n, j - 1) && lines(d, line, n, g);
      PassIsDetermined(r, lines, start, m, n, j - 1);
    }
  }

  lemma {:induction false} PassesAreDetermined(r: Rule, lines: LineRule, f: seq<Cell>, g: seq<Cell>, n: nat)
    requires r.Sized() && Functional(lines) && AfterPasses(r, lines, f, n) && AfterPasses(r, lines, g, n)
    ensures f == g
    decreases n
  {
    if n > 0 {
      var a :| AfterPasses(r, lines, a, n - 1) && PassTo(r, lines, a, f, LineCount(r));
      var b :| AfterPasses(r, lines, b, n - 1) && PassTo(r, lines, b, g, LineCount(r));
      PassesAreDetermined(r, lines, a, b, n - 1);
      PassIsDetermined(r, lines, a, f, g, LineCount(r));
    }
  }

  // A pass that adds nothing can be repeated for ever.
  lemma {:induction false} StableStays(r: Rule, lines: LineRule, f: seq<Cell>, n: nat, m: nat)
    requires r.Sized() && Functional(lines) && AfterPasses(r, lines, f, n) && AfterPasses(r, lines, f, n + 1) && n <= m
    ensures AfterPasses(r, lines, f, m)
    decreases m
  {
    if m > n {
      StableStays(r, lines, f, n, m - 1);
      var a :| AfterPasses(r, lines, a, n) && PassTo(r, lines, a, f, LineCount(r));
      PassesAreDetermined(r, lines, a, f, n);
      OnePassMore(r, lines, f, f, m - 1);
    }
  }

  lemma StableIsUnique(r: Rule, lines: LineRule, f: seq<Cell>, n: nat, g: seq<Cell>, m: nat)
    requires r.Sized() && Functional(lines)
    requires AfterPasses(r, lines, f, n) && AfterPasses(r, lines, f, n + 1)
    requires AfterPasses(r, lines, g, m) && AfterPasses(r, lines, g, m + 1)
    ensures f == g
  {
    var k := Max(n, m);
    StableStays(r, lines, f, n, k);
    StableStays(r, lines, g, m, k);
    PassesAreDetermined(r, lines, f, g, k);
  }

  // Whatever ends with a pass that adds nothing has made the same fills.
  lemma {:induction false} FillIsDetermined(r: Rule, p: Image, f: seq<Cell>, n: nat, g: seq<Cell>, m: nat)
    requires r.Sized() && AfterPasses(r, LinesOf(r, p), f, n) && AfterPasses(r, LinesOf(r, p), f, n + 1)
    requires AfterPasses(r, LinesOf(r, p), g, m) && AfterPasses(r, LinesOf(r, p), g, m + 1)
    ensures f == g
  {
    LinesAreFunctional(r, p);
    StableIsUnique(r, LinesOf(r, p), f, n, g, m);
  }

  lemma LinesAreFunctional(r: Rule, p: Image)
    ensures Functional(LinesOf(r, p))
  {
    forall d, line, start, f, g | LineDone(r, p, d, line, start, f) && LineDone(r, p, d, line, start, g)
      ensures f == g
    {
      LineIsDetermined(r, p, d, line, start, f, g);
    }
  }
}
