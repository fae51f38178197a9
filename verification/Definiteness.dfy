/**
 The pressure matrix (jupiter/ccse_poisson.c, 212-244 and 246-495) is symmetric and strictly
 diagonally dominant on every rank, and on one rank negative definite, for every grid size and every
 mix of walls, outlets, immersed inlets and porosity.
 */
module Definiteness {
  import opened Layout
  import opened Slab
  import opened Ranks
  import opened Frames
  import opened Flow
  import opened Projection
  import opened Sums

  /** Porosity is not negative. */
  ghost predicate Porous(p: Case) {
    p.Valid() && forall j | 0 <= j < |p.eps| :: p.eps[j] >= 0.0
  }

  /** Besides, one rank owns the whole domain. */
  ghost predicate OneRank(p: Case) {
    Porous(p) && forall dir | 0 <= dir < 6 :: p.g.nrk[dir] == -1
  }

  lemma CoefNonNegative(p: Case, k: nat, c: Index)
    requires Porous(p) && k < 3 && p.IsFace(k, c)
    ensures Coef(p, k, c) >= 0.0
  {
    hide MatrixEps, Mobility, DensitySum, Inlet, Case.IsFace, Addr;
    MatrixEpsNonNegative(p, k, c);
    ProductNonNegative(MatrixEps(p, k, c), Mobility(DensitySum(p, k, c), p.di[k]));
  }

  lemma ProductNonNegative(a: real, b: real)
    requires a >= 0.0 && b >= 0.0
    ensures a * b >= 0.0
  {
  }

  lemma MatrixEpsNonNegative(p: Case, k: nat, c: Index)
    requires Porous(p) && p.IsFace(k, c)
    ensures MatrixEps(p, k, c) >= 0.0
  {
    FaceCells(p, k, c);
  }

  /** The entry from c to its neighbour equals the neighbour's entry back to c, across inlets too, on any rank. */
  lemma Symmetric(p: Case, c: Index, dir: nat)
    requires p.Valid() && p.IsCell(c) && dir < 6 && p.IsCell(Across(c, dir))
    ensures OffDiagonal(p, c, dir) == OffDiagonal(p, Across(c, dir), Opposite(dir))
    ensures Across(Across(c, dir), Opposite(dir)) == c
  {
    assert FaceOf(c, dir) == FaceOf(Across(c, dir), Opposite(dir));
    assert !AtWall(p, c, dir) && !AtWall(p, Across(c, dir), Opposite(dir));
  }

  lemma DominantPart(p: Case, c: Index, dir: nat)
    requires Porous(p) && p.IsCell(c) && dir < 6
    ensures DiagonalPart(p, c, dir) >= OffDiagonal(p, c, dir) >= 0.0
  {
    FaceOfIsFace(p.g, c, dir);
    CoefNonNegative(p, dir / 2, FaceOf(c, dir));
  }

  /** The diagonal outweighs the rest of its row by at least 1e-10. */
  lemma StrictlyDominant(p: Case, c: Index)
    requires Porous(p) && p.IsCell(c)
    ensures -Diagonal(p, c) >= TINY +
              OffDiagonal(p, c, 0) + OffDiagonal(p, c, 1) + OffDiagonal(p, c, 2) +
              OffDiagonal(p, c, 3) + OffDiagonal(p, c, 4) + OffDiagonal(p, c, 5)
  {
    hide DiagonalPart, OffDiagonal;
    DominantPart(p, c, 0);
    DominantPart(p, c, 1);
    DominantPart(p, c, 2);
    DominantPart(p, c, 3);
    DominantPart(p, c, 4);
    DominantPart(p, c, 5);
  }

  /** The share of direction dir in row c of the matrix applied to x. */
  function Share(p: Case, c: Index, dir: nat, x: seq<real>): real
    requires p.Valid() && p.IsCell(c) && dir < 6 && |x| == p.Dim().Size()
  {
    OffTerm(p, c, dir, x) - DiagonalPart(p, c, dir) * CellValue(p, c, x)
  }

  /** The part of x * (A x) at cell c that axis k contributes. */
  function AxisEnergy(p: Case, k: nat, c: Index, x: seq<real>): real
    requires p.Valid() && k < 3 && |x| == p.Dim().Size()
  {
    if p.IsCell(c) then CellValue(p, c, x) * (Share(p, c, 2 * k, x) + Share(p, c, 2 * k + 1, x)) else 0.0
  }

  /** The squared jump over the lower face of c, or twice the square of c itself where that face is an outlet. */
  function LowerLoss(p: Case, k: nat, c: Index, x: seq<real>): real
    requires p.Valid() && p.IsCell(c) && k < 3 && |x| == p.Dim().Size()
  {
    var v := CellValue(p, c, x);
    if !AtWall(p, c, 2 * k) then
      var jump := v - NeighbourValue(p, c, 2 * k, x);
      CoefAt(p, c, 2 * k) * (jump * jump)
    else if AtOut(p, c, 2 * k) then 2.0 * CoefAt(p, c, 2 * k) * (v * v)
    else 0.0
  }

  /** The same for the upper face where it is a wall; inner upper faces are their neighbour's lower ones. */
  function UpperLoss(p: Case, k: nat, c: Index, x: seq<real>): real
    requires p.Valid() && p.IsCell(c) && k < 3 && |x| == p.Dim().Size()
  {
    var v := CellValue(p, c, x);
    if AtOut(p, c, 2 * k + 1) then 2.0 * CoefAt(p, c, 2 * k + 1) * (v * v) else 0.0
  }

  function AxisLoss(p: Case, k: nat, c: Index, x: seq<real>): real
    requires p.Valid() && k < 3 && |x| == p.Dim().Size()
  {
    if p.IsCell(c) then LowerLoss(p, k, c, x) + UpperLoss(p, k, c, x) else 0.0
  }

  lemma LossNonNegative(p: Case, k: nat, c: Index, x: seq<real>)
    requires OneRank(p) && k < 3 && |x| == p.Dim().Size()
    ensures AxisLoss(p, k, c, x) >= 0.0
  {
    hide LowerLoss, UpperLoss;
    if p.IsCell(c) {
      LowerNonNegative(p, k, c, x);
      UpperNonNegative(p, k, c, x);
    }
  }

  lemma LowerNonNegative(p: Case, k: nat, c: Index, x: seq<real>)
    requires OneRank(p) && k < 3 && |x| == p.Dim().Size() && p.IsCell(c)
    ensures LowerLoss(p, k, c, x) >= 0.0
  {
    hide CoefAt, CellValue, NeighbourValue, AtWall, AtOut, Case.IsCell;
    CoefAtNonNegative(p, c, 2 * k);
    Square(CoefAt(p, c, 2 * k), CellValue(p, c, x));
    Square(CoefAt(p, c, 2 * k), CellValue(p, c, x) - NeighbourValue(p, c, 2 * k, x));
  }

  lemma UpperNonNegative(p: Case, k: nat, c: Index, x: seq<real>)
    requires OneRank(p) && k < 3 && |x| == p.Dim().Size() && p.IsCell(c)
    ensures UpperLoss(p, k, c, x) >= 0.0
  {
    hide CoefAt, CellValue, AtOut, Case.IsCell;
    CoefAtNonNegative(p, c, 2 * k + 1);
    Square(CoefAt(p, c, 2 * k + 1), CellValue(p, c, x));
  }

  lemma CoefAtNonNegative(p: Case, c: Index, dir: nat)
    requires Porous(p) && p.IsCell(c) && dir < 6
    ensures CoefAt(p, c, dir) >= 0.0
  {
    FaceOfIsFace(p.g, c, dir);
    CoefNonNegative(p, dir / 2, FaceOf(c, dir));
  }

  lemma Square(a: real, v: real)
    requires a >= 0.0
    ensures a * (v * v) >= 0.0 && 2.0 * a * (v * v) >= 0.0
  {
    assert v * v >= 0.0;
  }

  /** The pending half of the last inner face of a line of m cells. */
  function Pending(p: Case, k: nat, c: Index, x: seq<real>): real
    requires p.Valid() && p.IsCell(c) && k < 3 && |x| == p.Dim().Size()
  {
    CellValue(p, c, x) * Share(p, c, 2 * k + 1, x)
  }

  /** Neighbouring cells of a line: the two halves of their face make one squared jump. */
  lemma FaceOfLine(p: Case, k: nat, c: Index, x: seq<real>)
    requires OneRank(p) && k < 3 && |x| == p.Dim().Size() && p.IsCell(c) && p.IsCell(Prev(c, k))
    ensures Pending(p, k, Prev(c, k), x) + CellValue(p, c, x) * Share(p, c, 2 * k, x) == -LowerLoss(p, k, c, x)
    ensures UpperLoss(p, k, Prev(c, k), x) == 0.0
  {
    hide CoefAt, CellValue, NeighbourValue, AtWall, Share, LowerLoss, UpperLoss, Case.IsCell;
    InnerFace(p, k, c, x);
    JumpRing(CoefAt(p, c, 2 * k), CellValue(p, Prev(c, k), x), CellValue(p, c, x));
  }

  lemma InnerFace(p: Case, k: nat, c: Index, x: seq<real>)
    requires OneRank(p) && k < 3 && |x| == p.Dim().Size() && p.IsCell(c) && p.IsCell(Prev(c, k))
    ensures UpperLoss(p, k, Prev(c, k), x) == 0.0
    ensures var jump := CellValue(p, c, x) - CellValue(p, Prev(c, k), x);
            LowerLoss(p, k, c, x) == CoefAt(p, c, 2 * k) * (jump * jump)
    ensures Share(p, c, 2 * k, x) ==
            CoefAt(p, c, 2 * k) * CellValue(p, Prev(c, k), x) - CoefAt(p, c, 2 * k) * CellValue(p, c, x)
    ensures Share(p, Prev(c, k), 2 * k + 1, x) ==
            CoefAt(p, c, 2 * k) * CellValue(p, c, x) - CoefAt(p, c, 2 * k) * CellValue(p, Prev(c, k), x)
  {
    hide Coef, At, LowerLoss, UpperLoss, Share;
    LowerOfInner(p, k, c, x);
    UpperOfInner(p, k, c, x);
  }

  lemma LowerOfInner(p: Case, k: nat, c: Index, x: seq<real>)
    requires OneRank(p) && k < 3 && |x| == p.Dim().Size() && p.IsCell(c) && p.IsCell(Prev(c, k))
    ensures var jump := CellValue(p, c, x) - CellValue(p, Prev(c, k), x);
            LowerLoss(p, k, c, x) == CoefAt(p, c, 2 * k) * (jump * jump)
    ensures Share(p, c, 2 * k, x) ==
            CoefAt(p, c, 2 * k) * CellValue(p, Prev(c, k), x) - CoefAt(p, c, 2 * k) * CellValue(p, c, x)
  {
    hide CoefAt, At;
    assert !AtWall(p, c, 2 * k) && Across(c, 2 * k) == Prev(c, k);
    assert NeighbourValue(p, c, 2 * k, x) == CellValue(p, Prev(c, k), x);
    hide NeighbourValue, CellValue, AtWall;
  }

  lemma UpperOfInner(p: Case, k: nat, c: Index, x: seq<real>)
    requires OneRank(p) && k < 3 && |x| == p.Dim().Size() && p.IsCell(c) && p.IsCell(Prev(c, k))
    ensures UpperLoss(p, k, Prev(c, k), x) == 0.0
    ensures Share(p, Prev(c, k), 2 * k + 1, x) ==
            CoefAt(p, c, 2 * k) * CellValue(p, c, x) - CoefAt(p, c, 2 * k) * CellValue(p, Prev(c, k), x)
  {
    hide Coef, At;
    assert Next(Prev(c, k), k) == c;
    assert CoefAt(p, Prev(c, k), 2 * k + 1) == CoefAt(p, c, 2 * k);
    assert !AtWall(p, Prev(c, k), 2 * k + 1) && Across(Prev(c, k), 2 * k + 1) == c;
    assert NeighbourValue(p, Prev(c, k), 2 * k + 1, x) == CellValue(p, c, x);
    hide NeighbourValue, CellValue, AtWall, CoefAt;
  }

  lemma JumpRing(a: real, u: real, v: real)
    ensures u * (a * v - a * u) + v * (a * u - a * v) == -(a * ((v - u) * (v - u)))
  {
  }

  /** The first cell of a line: its lower face is a wall. */
  lemma LineStart(p: Case, k: nat, c: Index, x: seq<real>)
    requires OneRank(p) && k < 3 && |x| == p.Dim().Size() && p.IsCell(c) && Get(c, k) == p.g.stm
    ensures CellValue(p, c, x) * Share(p, c, 2 * k, x) == -LowerLoss(p, k, c, x)
  {
    hide CoefAt, CellValue, NeighbourValue;
    WallRing(CoefAt(p, c, 2 * k), CellValue(p, c, x), NeighbourValue(p, c, 2 * k, x));
  }

  lemma LineEnd(p: Case, k: nat, c: Index, x: seq<real>)
    requires OneRank(p) && k < 3 && |x| == p.Dim().Size() && p.IsCell(c) && Get(c, k) == Get(p.g.n, k) + p.g.stm - 1
    ensures Pending(p, k, c, x) == -UpperLoss(p, k, c, x)
  {
    hide CoefAt, CellValue, NeighbourValue;
    WallRing(CoefAt(p, c, 2 * k + 1), CellValue(p, c, x), NeighbourValue(p, c, 2 * k + 1, x));
  }

  lemma WallRing(a: real, v: real, nb: real)
    ensures v * (0.0 * nb - 2.0 * a * v) == -(2.0 * a * (v * v))
    ensures v * (0.0 * nb - 0.0 * v) == 0.0
  {
  }

  ghost predicate IsLine(p: Case, k: nat, a: int, b: int) {
    p.g.Sized() && k < 3 && p.IsCell(PlaneCell(k, a, b, p.g.stm))
  }

  lemma OnLine(p: Case, k: nat, a: int, b: int, m: nat)
    requires IsLine(p, k, a, b) && 1 <= m <= Get(p.g.n, k)
    ensures var c := PlaneCell(k, a, b, p.g.stm + m - 1); p.IsCell(c) && Get(c, k) == p.g.stm + m - 1
    ensures m > 1 ==>
              var c := PlaneCell(k, a, b, p.g.stm + m - 1);
              Prev(c, k) == PlaneCell(k, a, b, p.g.stm + (m - 1) - 1) && p.IsCell(Prev(c, k))
  {
  }

  lemma EnergyParts(p: Case, k: nat, c: Index, x: seq<real>)
    requires p.Valid() && k < 3 && |x| == p.Dim().Size() && p.IsCell(c)
    ensures AxisEnergy(p, k, c, x) == CellValue(p, c, x) * Share(p, c, 2 * k, x) + Pending(p, k, c, x)
    ensures AxisLoss(p, k, c, x) == LowerLoss(p, k, c, x) + UpperLoss(p, k, c, x)
  {
    hide Share, CellValue, LowerLoss, UpperLoss;
    Distribute(CellValue(p, c, x), Share(p, c, 2 * k, x), Share(p, c, 2 * k + 1, x));
  }

  lemma Distribute(v: real, a: real, b: real)
    ensures v * (a + b) == v * a + v * b
  {
  }

  function Energy(p: Case, k: nat, x: seq<real>): Index -> real
    requires p.Valid() && k < 3 && |x| == p.Dim().Size()
  {
    (c: Index) => AxisEnergy(p, k, c, x)
  }

  function Loss(p: Case, k: nat, x: seq<real>): Index -> real
    requires p.Valid() && k < 3 && |x| == p.Dim().Size()
  {
    (c: Index) => AxisLoss(p, k, c, x)
  }

  /** Summing by parts along the first m cells of a line. */
  lemma {:induction false} LinePartial(p: Case, k: nat, a: int, b: int, x: seq<real>, m: nat)
    requires OneRank(p) && IsLine(p, k, a, b) && |x| == p.Dim().Size() && 1 <= m <= Get(p.g.n, k)
    ensures p.IsCell(PlaneCell(k, a, b, p.g.stm + m - 1))
    ensures SumLine(Energy(p, k, x), p.g.stm, k, a, b, m) ==
            -SumLine(Loss(p, k, x), p.g.stm, k, a, b, m) +
            UpperLoss(p, k, PlaneCell(k, a, b, p.g.stm + m - 1), x) +
            Pending(p, k, PlaneCell(k, a, b, p.g.stm + m - 1), x)
  {
    hide Share, LowerLoss, UpperLoss, CellValue, AtWall, Pending, Case.IsCell, AxisEnergy, AxisLoss;
    var c := PlaneCell(k, a, b, p.g.stm + m - 1);
    OnLine(p, k, a, b, m);
    EnergyParts(p, k, c, x);
    if m == 1 {
      LineStart(p, k, c, x);
      assert SumLine(Energy(p, k, x), p.g.stm, k, a, b, 0) == 0.0 == SumLine(Loss(p, k, x), p.g.stm, k, a, b, 0);
    } else {
      LinePartial(p, k, a, b, x, m - 1);
      FaceOfLine(p, k, c, x);
    }
  }

  /** A whole line: energy and loss cancel. */
  lemma LineBalance(p: Case, k: nat, a: int, b: int, x: seq<real>)
    requires OneRank(p) && IsLine(p, k, a, b) && |x| == p.Dim().Size()
    ensures SumLine(Energy(p, k, x), p.g.stm, k, a, b, Get(p.g.n, k)) ==
            -SumLine(Loss(p, k, x), p.g.stm, k, a, b, Get(p.g.n, k))
  {
    hide Energy, Loss, Pending, UpperLoss, SumLine;
    var m: nat := Get(p.g.n, k);
    OnLine(p, k, a, b, m);
    LinePartial(p, k, a, b, x, m);
    LineEnd(p, k, PlaneCell(k, a, b, p.g.stm + m - 1), x);
  }

  /** The whole box: what axis k contributes is minus its loss. */
  lemma AxisBalance(p: Case, k: nat, x: seq<real>)
    requires OneRank(p) && k < 3 && |x| == p.Dim().Size()
    ensures Total(p.g, Energy(p, k, x)) == -Total(p.g, Loss(p, k, x))
  {
    hide Energy, Loss;
    var g, e, l := p.g, Energy(p, k, x), Loss(p, k, x);
    var nb: nat := if k == 0 then g.n.y else g.n.z;
    var na: nat := if k == 2 then g.n.y else g.n.x;
    forall a, b | g.stm <= a < g.stm + na && g.stm <= b < g.stm + nb
      ensures SumLine(e, g.stm, k, a, b, Get(g.n, k)) == -SumLine(l, g.stm, k, a, b, Get(g.n, k))
    {
      LineBalance(p, k, a, b, x);
    }
    BoxCancels(e, l, g.stm, k, nb, na, Get(g.n, k));
    if k == 1 {
      RowsFirst(e, g.stm, nb, na, g.n.y);
      RowsFirst(l, g.stm, nb, na, g.n.y);
    } else if k == 0 {
      ColumnsFirst(e, g.stm, nb, na, g.n.z);
      ColumnsFirst(l, g.stm, nb, na, g.n.z);
    }
  }

  /** x * (A x) at a cell; the quadratic form is its total. */
  function Form(p: Case, x: seq<real>): Index -> real
    requires p.Valid() && |x| == p.Dim().Size()
  {
    (c: Index) => if p.IsCell(c) then CellValue(p, c, x) * Row(p, c, x) else 0.0
  }

  /** 1e-10 times the square of x at a cell. */
  function ShiftLoss(p: Case, x: seq<real>): Index -> real
    requires p.Valid() && |x| == p.Dim().Size()
  {
    (c: Index) => if p.IsCell(c) then TINY * (CellValue(p, c, x) * CellValue(p, c, x)) else 0.0
  }

  function Negated(f: Index -> real): Index -> real {
    (c: Index) => -f(c)
  }

  /** All losses of a cell: its share of the jumps over inner faces, the outlets and the shift. */
  function AllLoss(p: Case, x: seq<real>): Index -> real
    requires p.Valid() && |x| == p.Dim().Size()
  {
    (c: Index) => Loss(p, 2, x)(c) + Loss(p, 1, x)(c) + Loss(p, 0, x)(c) + ShiftLoss(p, x)(c)
  }

  lemma RowOfShares(p: Case, x: seq<real>, c: Index)
    requires p.Valid() && |x| == p.Dim().Size() && p.IsCell(c)
    ensures Row(p, c, x) ==
            (Share(p, c, 4, x) + Share(p, c, 5, x)) + (Share(p, c, 2, x) + Share(p, c, 3, x)) +
            (Share(p, c, 0, x) + Share(p, c, 1, x)) - TINY * CellValue(p, c, x)
  {
    hide CellValue, OffTerm, DiagonalPart, Case.IsCell;
    DiagonalRing(DiagonalPart(p, c, 0), DiagonalPart(p, c, 1), DiagonalPart(p, c, 2),
                 DiagonalPart(p, c, 3), DiagonalPart(p, c, 4), DiagonalPart(p, c, 5), TINY, CellValue(p, c, x));
  }

  lemma TermsAt(p: Case, x: seq<real>, c: Index)
    requires p.Valid() && |x| == p.Dim().Size() && p.IsCell(c)
    ensures Form(p, x)(c) == CellValue(p, c, x) * Row(p, c, x)
    ensures Negated(ShiftLoss(p, x))(c) == -(TINY * (CellValue(p, c, x) * CellValue(p, c, x)))
    ensures Energy(p, 2, x)(c) == CellValue(p, c, x) * (Share(p, c, 4, x) + Share(p, c, 5, x))
    ensures Energy(p, 1, x)(c) == CellValue(p, c, x) * (Share(p, c, 2, x) + Share(p, c, 3, x))
    ensures Energy(p, 0, x)(c) == CellValue(p, c, x) * (Share(p, c, 0, x) + Share(p, c, 1, x))
  {
    hide CellValue, Row, Share, Case.IsCell;
  }

  lemma FormSplits(p: Case, x: seq<real>, c: Index)
    requires p.Valid() && |x| == p.Dim().Size()
    ensures Form(p, x)(c) == Energy(p, 2, x)(c) + Energy(p, 1, x)(c) + Energy(p, 0, x)(c) + Negated(ShiftLoss(p, x))(c)
  {
    hide CellValue, Share, Row;
    if p.IsCell(c) {
      FormOfCell(p, x, c);
    }
  }

  lemma FormOfCell(p: Case, x: seq<real>, c: Index)
    requires p.Valid() && |x| == p.Dim().Size() && p.IsCell(c)
    ensures Form(p, x)(c) == Energy(p, 2, x)(c) + Energy(p, 1, x)(c) + Energy(p, 0, x)(c) + Negated(ShiftLoss(p, x))(c)
  {
    hide *;
    TermsAt(p, x, c);
    RowOfShares(p, x, c);
    SplitRing(Row(p, c, x), CellValue(p, c, x), Share(p, c, 4, x) + Share(p, c, 5, x),
        Share(p, c, 2, x) + Share(p, c, 3, x),
              Share(p, c, 0, x) + Share(p, c, 1, x), TINY);
  }

  lemma SplitRing(row: real, v: real, a: real, b: real, c: real, t: real)
    requires row == a + b + c - t * v
    ensures v * row == v * a + v * b + v * c - t * (v * v)
  {
    assert v * (t * v) == t * (v * v);
    assert v * row == v * a + v * b + v * c - v * (t * v);
  }

  lemma NegatedTotal(g: Frame, f: Index -> real)
    requires g.Sized()
    ensures Total(g, Negated(f)) == -Total(g, f)
  {
    forall a, b
      ensures SumLine(Negated(f), g.stm, 2, a, b, g.n.x) == -SumLine(f, g.stm, 2, a, b, g.n.x)
    {
      NegatedLine(g.stm, f, a, b, g.n.x);
    }
    BoxCancels(Negated(f), f, g.stm, 2, g.n.z, g.n.y, g.n.x);
  }

  lemma {:induction false} NegatedLine(lo: int, f: Index -> real, a: int, b: int, m: nat)
    ensures SumLine(Negated(f), lo, 2, a, b, m) == -SumLine(f, lo, 2, a, b, m)
  {
    if m > 0 {
      NegatedLine(lo, f, a, b, m - 1);
    }
  }

  /** The energy identity: the form is minus the jumps, the outlets and the shift, for every field x. */
  lemma EnergyIdentity(p: Case, x: seq<real>)
    requires OneRank(p) && |x| == p.Dim().Size()
    ensures Total(p.g, Form(p, x)) == -Total(p.g, AllLoss(p, x))
  {
    var e2, e1, e0, s := Energy(p, 2, x), Energy(p, 1, x), Energy(p, 0, x), ShiftLoss(p, x);
    var l2, l1, l0, ns := Loss(p, 2, x), Loss(p, 1, x), Loss(p, 0, x), Negated(ShiftLoss(p, x));
    forall c
      ensures Form(p, x)(c) == e2(c) + e1(c) + e0(c) + ns(c)
      ensures AllLoss(p, x)(c) == l2(c) + l1(c) + l0(c) + s(c)
    {
      FormSplits(p, x, c);
    }
    hide Form, Energy, Loss, ShiftLoss, AllLoss, Negated;
    BoxAdds(e2, e1, e0, ns, Form(p, x), p.g.stm, p.g.n.z, p.g.n.y, p.g.n.x);
    BoxAdds(l2, l1, l0, s, AllLoss(p, x), p.g.stm, p.g.n.z, p.g.n.y, p.g.n.x);
    AxisBalance(p, 0, x);
    AxisBalance(p, 1, x);
    AxisBalance(p, 2, x);
    NegatedTotal(p.g, ShiftLoss(p, x));
  }

  lemma AllLossNonNegative(p: Case, x: seq<real>, c: Index)
    requires OneRank(p) && |x| == p.Dim().Size()
    ensures AllLoss(p, x)(c) >= ShiftLoss(p, x)(c) >= 0.0
  {
    hide AxisLoss, CellValue;
    LossNonNegative(p, 0, c, x);
    LossNonNegative(p, 1, c, x);
    LossNonNegative(p, 2, c, x);
    if p.IsCell(c) {
      Square(TINY, CellValue(p, c, x));
    }
  }

  lemma LossBelowTotal(p: Case, x: seq<real>)
    requires OneRank(p) && |x| == p.Dim().Size()
    ensures Total(p.g, AllLoss(p, x)) >= 0.0
    ensures forall i, a, b | p.IsCell(PlaneCell(2, a, b, i)) ::
            AllLoss(p, x)(PlaneCell(2, a, b, i)) <= Total(p.g, AllLoss(p, x))
  {
    hide AllLoss, ShiftLoss;
    forall c
      ensures AllLoss(p, x)(c) >= 0.0
    {
      AllLossNonNegative(p, x, c);
    }
    BoxBounds(AllLoss(p, x), p.g.stm, p.g.n.z, p.g.n.y, p.g.n.x);
  }

  /** The total loss bounds the shift of every cell. */
  lemma ShiftBelowTotal(p: Case, x: seq<real>, c: Index)
    requires OneRank(p) && |x| == p.Dim().Size() && p.IsCell(c)
    ensures TINY * (CellValue(p, c, x) * CellValue(p, c, x)) <= Total(p.g, AllLoss(p, x))
  {
    hide AllLoss, CellValue, Total, Case.IsCell, Addr;
    LossBelowTotal(p, x);
    assert c == PlaneCell(2, c.y, c.z, c.x);
    AllLossNonNegative(p, x, c);
  }

  /** The matrix is negative definite: the form vanishes only on the zero field. */
  lemma NegativeDefinite(p: Case, x: seq<real>)
    requires OneRank(p) && |x| == p.Dim().Size()
    ensures Total(p.g, Form(p, x)) <= 0.0
    ensures Total(p.g, Form(p, x)) == 0.0 ==> forall c | p.IsCell(c) :: CellValue(p, c, x) == 0.0
  {
    hide Form, AllLoss, CellValue, Total;
    EnergyIdentity(p, x);
    LossBelowTotal(p, x);
    if Total(p.g, Form(p, x)) == 0.0 {
      forall c | p.IsCell(c)
        ensures CellValue(p, c, x) == 0.0
      {
        ShiftBelowTotal(p, x, c);
        var v := CellValue(p, c, x);
        OnlyZero(TINY, v, v * v, TINY * (v * v));
      }
    }
  }

  /** A square q of a whose multiple is not positive. */
  lemma OnlyZero(t: real, a: real, q: real, w: real)
    requires t > 0.0 && q == a * a && w == t * q && w <= 0.0
    ensures a == 0.0
  {
    if a > 0.0 {
      PositiveProduct(a, a, q);
      PositiveProduct(t, q, w);
    } else if a < 0.0 {
      Flip(a, q);
      PositiveProduct(-a, -a, q);
      PositiveProduct(t, q, w);
    }
  }

  lemma PositiveProduct(a: real, b: real, c: real)
    requires a > 0.0 && b > 0.0 && c == a * b
    ensures c > 0.0
  {
  }

  lemma Flip(a: real, q: real)
    requires q == a * a
    ensures q == (-a) * (-a)
  {
  }

  /** Hence A x = 0 only for x = 0, and the pressure system has at most one solution. */
  lemma OnlyTrivialKernel(p: Case, x: seq<real>)
    requires OneRank(p) && |x| == p.Dim().Size() && forall c | p.IsCell(c) :: Row(p, c, x) == 0.0
    ensures forall c | p.IsCell(c) :: CellValue(p, c, x) == 0.0
  {
    hide Row, CellValue;
    forall a, b
      ensures SumLine(Form(p, x), p.g.stm, 2, a, b, p.g.n.x) == -SumLine(Form(p, x), p.g.stm, 2, a, b, p.g.n.x)
    {
      ZeroLine(Form(p, x), p.g.stm, a, b, p.g.n.x);
    }
    BoxCancels(Form(p, x), Form(p, x), p.g.stm, 2, p.g.n.z, p.g.n.y, p.g.n.x);
    NegativeDefinite(p, x);
  }

  lemma {:induction false} ZeroLine(f: Index -> real, lo: int, a: int, b: int, m: nat)
    requires forall c :: f(c) == 0.0
    ensures SumLine(f, lo, 2, a, b, m) == 0.0
  {
    if m > 0 {
      ZeroLine(f, lo, a, b, m - 1);
    }
  }

  /** Two pressure fields with the same right-hand side agree in every cell. */
  lemma SolutionIsUnique(p: Case, x: seq<real>, y: seq<real>)
    requires OneRank(p) && |x| == |y| == p.Dim().Size()
    requires forall c | p.IsCell(c) :: Row(p, c, x) == Row(p, c, y)
    ensures forall c | p.IsCell(c) :: CellValue(p, c, x) == CellValue(p, c, y)
  {
    var z := Difference(x, y);
    forall c | p.IsCell(c)
      ensures Row(p, c, z) == 0.0 && CellValue(p, c, z) == CellValue(p, c, x) - CellValue(p, c, y)
    {
      RowOfDifference(p, c, x, y);
    }
    OnlyTrivialKernel(p, z);
  }

  function Difference(x: seq<real>, y: seq<real>): (z: seq<real>)
    requires |x| == |y|
    ensures |z| == |x|
  {
    seq(|x|, (j: nat) requires j < |x| => x[j] - y[j])
  }

  lemma OffTermOfDifference(p: Case, c: Index, dir: nat, x: seq<real>, y: seq<real>)
    requires p.Valid() && p.IsCell(c) && dir < 6 && |x| == |y| == p.Dim().Size()
    ensures OffTerm(p, c, dir, Difference(x, y)) == OffTerm(p, c, dir, x) - OffTerm(p, c, dir, y)
  {
    hide OffDiagonal, NeighbourValue, Difference, AtWall, Case.IsCell;
    NeighbourOfDifference(p, c, dir, x, y);
    TimesDifference(OffDiagonal(p, c, dir), NeighbourValue(p, c, dir, x), NeighbourValue(p, c, dir, y),
                    NeighbourValue(p, c, dir, Difference(x, y)));
  }

  lemma RowOfDifference(p: Case, c: Index, x: seq<real>, y: seq<real>)
    requires p.Valid() && p.IsCell(c) && |x| == |y| == p.Dim().Size()
    ensures CellValue(p, c, Difference(x, y)) == CellValue(p, c, x) - CellValue(p, c, y)
    ensures Row(p, c, Difference(x, y)) == Row(p, c, x) - Row(p, c, y)
  {
    hide Diagonal, OffTerm, OwnTerm, Difference, CellValue, Case.IsCell, Dims.Size;
    CellOfDifference(p, c, x, y);
    OwnTermOfDifference(p, c, x, y);
    forall dir: nat | dir < 6
      ensures OffTerm(p, c, dir, Difference(x, y)) == OffTerm(p, c, dir, x) - OffTerm(p, c, dir, y)
    {
      OffTermOfDifference(p, c, dir, x, y);
    }
  }

  lemma OwnTermOfDifference(p: Case, c: Index, x: seq<real>, y: seq<real>)
    requires p.Valid() && p.IsCell(c) && |x| == |y| == p.Dim().Size()
    ensures OwnTerm(p, c, Difference(x, y)) == OwnTerm(p, c, x) - OwnTerm(p, c, y)
  {
    hide Diagonal, Difference, CellValue, Case.IsCell, Dims.Size;
    CellOfDifference(p, c, x, y);
    TimesDifference(Diagonal(p, c), CellValue(p, c, x), CellValue(p, c, y), CellValue(p, c, Difference(x, y)));
  }

  lemma CellOfDifference(p: Case, c: Index, x: seq<real>, y: seq<real>)
    requires p.Valid() && p.IsCell(c) && |x| == |y| == p.Dim().Size()
    ensures CellValue(p, c, Difference(x, y)) == CellValue(p, c, x) - CellValue(p, c, y)
  {
  }

  lemma TimesDifference(d: real, a: real, b: real, e: real)
    requires e == a - b
    ensures d * e == d * a - d * b
  {
  }

  lemma NeighbourOfDifference(p: Case, c: Index, dir: nat, x: seq<real>, y: seq<real>)
    requires p.Valid() && p.IsCell(c) && dir < 6 && |x| == |y| == p.Dim().Size()
    ensures NeighbourValue(p, c, dir, Difference(x, y)) == NeighbourValue(p, c, dir, x) - NeighbourValue(p, c, dir, y)
  {
    FaceOfIsFace(p.g, c, dir);
  }
}
