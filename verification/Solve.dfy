// The sub-pixel solve: Cramer's rule on a symmetric 3 x 3 system of 16-bit
// entries, with a Q12 quotient taken after a common shift.
module Solve {
  import opened Words
  import opened Arithmetic

  // Second derivatives: the diagonal xx, yy, zz and the mixed ones.
  datatype Hessian = Hessian(xx: i16, yy: i16, zz: i16, xy: i16, yz: i16, xz: i16) {
    function Cof0(): int { xy as int * yz as int - xz as int * yy as int }
    function Cof1(): int { xz as int * yz as int - xy as int * zz as int }
    function Cof2(): int { yy as int * zz as int - yz as int * yz as int }
    function Mixed(): int { xy as int * xz as int - xx as int * yz as int }
    function MinorY(): int { xx as int * zz as int - xz as int * xz as int }
    function MinorZ(): int { xx as int * yy as int - xy as int * xy as int }
    function Determinant(): int { xx as int * Cof2() + xy as int * Cof1() + xz as int * Cof0() }
  }

  datatype Vector = Vector(x: int, y: int, z: int)

  function Times(h: Hessian, v: Vector): Vector {
    Vector(h.xx as int * v.x + h.xy as int * v.y + h.xz as int * v.z,
           h.xy as int * v.x + h.yy as int * v.y + h.yz as int * v.z,
           h.xz as int * v.x + h.yz as int * v.y + h.zz as int * v.z)
  }

  function Scaled(k: int, v: Vector): Vector { Vector(k * v.x, k * v.y, k * v.z) }

  ghost predicate SmallEntries(g: Vector) { Abs(g.x) <= 0x8000 && Abs(g.y) <= 0x8000 && Abs(g.z) <= 0x8000 }

  function Numerators(h: Hessian, g: Vector): Vector {
    Vector(-(g.x * h.Cof2() + g.y * h.Cof1() + g.z * h.Cof0()),
           -(h.MinorY() * g.y + h.Mixed() * g.z + g.x * h.Cof1()),
           -(h.MinorZ() * g.z + h.Mixed() * g.y + g.x * h.Cof0()))
  }

  // ---------- Cramer's rule ----------

  // Each row of the matrix times each column of its adjugate.
  lemma AdjugateX(h: Hessian)
    ensures h.xx as int * h.Cof1() + h.xy as int * h.MinorY() + h.xz as int * h.Mixed() == 0
    ensures h.xx as int * h.Cof0() + h.xy as int * h.Mixed() + h.xz as int * h.MinorZ() == 0
  {
  }

  lemma AdjugateY(h: Hessian)
    ensures h.xy as int * h.Cof2() + h.yy as int * h.Cof1() + h.yz as int * h.Cof0() == 0
    ensures h.xy as int * h.Cof1() + h.yy as int * h.MinorY() + h.yz as int * h.Mixed() == h.Determinant()
    ensures h.xy as int * h.Cof0() + h.yy as int * h.Mixed() + h.yz as int * h.MinorZ() == 0
  {
  }

  lemma AdjugateZ(h: Hessian)
    ensures h.xz as int * h.Cof2() + h.yz as int * h.Cof1() + h.zz as int * h.Cof0() == 0
    ensures h.xz as int * h.Cof1() + h.yz as int * h.MinorY() + h.zz as int * h.Mixed() == 0
    ensures h.xz as int * h.Cof0() + h.yz as int * h.Mixed() + h.zz as int * h.MinorZ() == h.Determinant()
  {
  }

  function Dot(a: Vector, b: Vector): int { a.x * b.x + a.y * b.y + a.z * b.z }

  // A row times the negated adjugate applied to g, column by column.
  lemma RowTimes(row: Vector, g: Vector, r0: Vector, r1: Vector, r2: Vector)
    ensures Dot(row, Vector(-Dot(g, r0), -Dot(g, r1), -Dot(g, r2)))
         == -Dot(g, Vector(Dot(row, Vector(r0.x, r1.x, r2.x)), Dot(row, Vector(r0.y, r1.y, r2.y)),
                           Dot(row, Vector(r0.z, r1.z, r2.z))))
  {
  }

  function Adjugate(h: Hessian): (Vector, Vector, Vector) {
    (Vector(h.Cof2(), h.Cof1(), h.Cof0()), Vector(h.Cof1(), h.MinorY(), h.Mixed()),
     Vector(h.Cof0(), h.Mixed(), h.MinorZ()))
  }

  lemma NumeratorsAre(h: Hessian, g: Vector)
    ensures var (r0, r1, r2) := Adjugate(h); Numerators(h, g) == Vector(-Dot(g, r0), -Dot(g, r1), -Dot(g, r2))
  {
    Commutes(h.MinorY(), g.y);
    Commutes(h.Mixed(), g.z);
    Commutes(h.MinorZ(), g.z);
    Commutes(h.Mixed(), g.y);
  }

  lemma Commutes(a: int, b: int)
    ensures a * b == b * a
  {
  }

  lemma Column(row: Vector, g: Vector, r0: Vector, r1: Vector, r2: Vector, d: Vector)
    requires d == Vector(Dot(row, Vector(r0.x, r1.x, r2.x)), Dot(row, Vector(r0.y, r1.y, r2.y)),
                         Dot(row, Vector(r0.z, r1.z, r2.z)))
    ensures Dot(row, Vector(-Dot(g, r0), -Dot(g, r1), -Dot(g, r2))) == -Dot(g, d)
  {
    RowTimes(row, g, r0, r1, r2);
  }

  lemma Diagonal(g: Vector, k: int)
    ensures -Dot(g, Vector(k, 0, 0)) == -k * g.x
    ensures -Dot(g, Vector(0, k, 0)) == -k * g.y
    ensures -Dot(g, Vector(0, 0, k)) == -k * g.z
  {
  }

  // The numerators solve the system: H * n == -det * g.
  lemma CramersRule(h: Hessian, g: Vector)
    ensures Times(h, Numerators(h, g)) == Scaled(-h.Determinant(), g)
  {
    var (r0, r1, r2) := Adjugate(h);
    var det := h.Determinant();
    NumeratorsAre(h, g);
    AdjugateX(h);
    AdjugateY(h);
    AdjugateZ(h);
    Column(Vector(h.xx, h.xy, h.xz), g, r0, r1, r2, Vector(det, 0, 0));
    Column(Vector(h.xy, h.yy, h.yz), g, r0, r1, r2, Vector(0, det, 0));
    Column(Vector(h.xz, h.yz, h.zz), g, r0, r1, r2, Vector(0, 0, det));
    Diagonal(g, det);
    TimesIsDots(h, Numerators(h, g));
  }

  lemma TimesIsDots(h: Hessian, v: Vector)
    ensures Times(h, v)
            == Vector(Dot(Vector(h.xx, h.xy, h.xz), v), Dot(Vector(h.xy, h.yy, h.yz), v),
                      Dot(Vector(h.xz, h.yz, h.zz), v))
  {
  }

  // ---------- ranges ----------

  lemma MinorBound(a: i16, b: i16, c: i16, d: i16)
    ensures Abs(a as int * b as int - c as int * d as int) <= 0x8000_0000
  {
    ProductBound(a, b, 0x8000, 0x8000);
    ProductBound(c, d, 0x8000, 0x8000);
  }

  ghost predicate SmallMinors(h: Hessian) {
    && Abs(h.Cof0()) <= 0x8000_0000 && Abs(h.Cof1()) <= 0x8000_0000 && Abs(h.Cof2()) <= 0x8000_0000
    && Abs(h.Mixed()) <= 0x8000_0000 && Abs(h.MinorY()) <= 0x8000_0000 && Abs(h.MinorZ()) <= 0x8000_0000
  }

  lemma MinorsFit(h: Hessian)
    ensures SmallMinors(h)
  {
    MinorBound(h.xy, h.yz, h.xz, h.yy);
    MinorBound(h.xz, h.yz, h.xy, h.zz);
    MinorBound(h.yy, h.zz, h.yz, h.yz);
    MinorBound(h.xy, h.xz, h.xx, h.yz);
    MinorBound(h.xx, h.zz, h.xz, h.xz);
    MinorBound(h.xx, h.yy, h.xy, h.xy);
  }

  const FIT: nat := 0x1_8000_0000_0000

  lemma CombinationBound(a: int, b: int, c: int, x: int, y: int, z: int)
    requires Abs(a) <= 0x8000 && Abs(b) <= 0x8000 && Abs(c) <= 0x8000
    requires Abs(x) <= 0x8000_0000 && Abs(y) <= 0x8000_0000 && Abs(z) <= 0x8000_0000
    ensures Abs(a * x) <= 0x4000_0000_0000 && Abs(a * x + b * y) <= 0x8000_0000_0000
    ensures Abs(a * x + b * y + c * z) <= FIT
  {
    ProductBound(a, x, 0x8000, 0x8000_0000);
    ProductBound(b, y, 0x8000, 0x8000_0000);
    ProductBound(c, z, 0x8000, 0x8000_0000);
  }

  // What each step of the computation yields fits a 64-bit word.
  ghost predicate Fits(x: int) { -0x8000_0000_0000_0000 <= x < 0x8000_0000_0000_0000 }

  ghost predicate MinorFits(a: int, b: int, c: int, d: int) { Fits(a * b) && Fits(c * d) && Fits(a * b - c * d) }

  ghost predicate SumFits(a: int, b: int, c: int, x: int, y: int, z: int) {
    && Fits(a * x) && Fits(b * y) && Fits(c * z) && Fits(a * x + b * y)
    && Fits(a * x + b * y + c * z) && Fits(-(a * x + b * y + c * z))
  }

  lemma MinorStepsFit(a: i16, b: i16, c: i16, d: i16)
    ensures MinorFits(a, b, c, d)
  {
    ProductBound(a, b, 0x8000, 0x8000);
    ProductBound(c, d, 0x8000, 0x8000);
  }

  lemma SumStepsFit(a: int, b: int, c: int, x: int, y: int, z: int)
    requires Abs(a) <= 0x8000 && Abs(b) <= 0x8000 && Abs(c) <= 0x8000
    requires Abs(x) <= 0x8000_0000 && Abs(y) <= 0x8000_0000 && Abs(z) <= 0x8000_0000
    ensures SumFits(a, b, c, x, y, z)
  {
    ProductBound(a, x, 0x8000, 0x8000_0000);
    ProductBound(b, y, 0x8000, 0x8000_0000);
    ProductBound(c, z, 0x8000, 0x8000_0000);
  }

  // The six minors, with both of their products.
  lemma EveryMinorFits(h: Hessian)
    ensures MinorFits(h.xy, h.yz, h.xz, h.yy) && MinorFits(h.xz, h.yz, h.xy, h.zz) && MinorFits(h.yy, h.zz, h.yz, h.yz)
    ensures MinorFits(h.xy, h.xz, h.xx, h.yz) && MinorFits(h.xx, h.zz, h.xz, h.xz) && MinorFits(h.xx, h.yy, h.xy, h.xy)
  {
    MinorStepsFit(h.xy, h.yz, h.xz, h.yy);
    MinorStepsFit(h.xz, h.yz, h.xy, h.zz);
    MinorStepsFit(h.yy, h.zz, h.yz, h.yz);
    MinorStepsFit(h.xy, h.xz, h.xx, h.yz);
    MinorStepsFit(h.xx, h.zz, h.xz, h.xz);
    MinorStepsFit(h.xx, h.yy, h.xy, h.xy);
  }

  // The products and partial sums of the determinant and the three numerators.
  lemma EverySumFits(h: Hessian, g: Vector)
    requires SmallEntries(g)
    ensures SumFits(h.xx, h.xy, h.xz, h.Cof2(), h.Cof1(), h.Cof0())
    ensures SumFits(g.x, g.y, g.z, h.Cof2(), h.Cof1(), h.Cof0())
    ensures SumFits(g.y, g.z, g.x, h.MinorY(), h.Mixed(), h.Cof1())
    ensures SumFits(g.z, g.y, g.x, h.MinorZ(), h.Mixed(), h.Cof0())
  {
    MinorsFit(h);
    SumStepsFit(h.xx, h.xy, h.xz, h.Cof2(), h.Cof1(), h.Cof0());
    SumStepsFit(g.x, g.y, g.z, h.Cof2(), h.Cof1(), h.Cof0());
    SumStepsFit(g.y, g.z, g.x, h.MinorY(), h.Mixed(), h.Cof1());
    SumStepsFit(g.z, g.y, g.x, h.MinorZ(), h.Mixed(), h.Cof0());
  }

  // Determinant and numerators stay far inside 64 bits.
  lemma RangesFit(h: Hessian, g: Vector)
    requires SmallEntries(g)
    ensures Abs(h.Determinant()) <= FIT
    ensures var n := Numerators(h, g); Abs(n.x) <= FIT && Abs(n.y) <= FIT && Abs(n.z) <= FIT
  {
    MinorsFit(h);
    CombinationBound(h.xx, h.xy, h.xz, h.Cof2(), h.Cof1(), h.Cof0());
    CombinationBound(g.x, g.y, g.z, h.Cof2(), h.Cof1(), h.Cof0());
    CombinationBound(g.y, g.z, g.x, h.MinorY(), h.Mixed(), h.Cof1());
    CombinationBound(g.z, g.y, g.x, h.MinorZ(), h.Mixed(), h.Cof0());
  }
}
