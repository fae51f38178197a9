/** The steps of divergence_free in their order (jupiter/divergence_free.c, 228-325). */
module DivergenceFree {
  import opened Layout
  import opened Slab
  import opened Ranks
  import opened Frames
  import opened Ghosts
  import opened Flow
  import opened Projection
  import opened FlowSteps
  import opened MatrixRows
  import opened PressureMatrix

  /** The rule of bcp_calc at a wall cell. */
  function PressureRule(fp: FluidBoundary): Rule {
    match fp
    case Out(NeumannPressure) => Mirrored
    case Out(ConstPressure(value)) => Reflected(value)
    case NotOut => Mirrored
  }

  function PressureRules(p: Case): (nat, Index) -> Rule {
    (dir: nat, c: Index) => PressureRule(p.wall(dir, c))
  }

  /** bcp leaves the ghosts that the matrix rows assume ... */
  lemma BcpFillsGhosts(p: Case, x: seq<real>, c: Index)
    requires p.Valid() && Reaches(p.g) && p.g.stp >= 2 && |x| == p.Dim().Size() && p.IsCell(c)
    ensures GhostsFilled(p, FilledSides(p.g, PressureRules(p), x, 6), c)
  {
    hide FilledSides, NeighbourValue, CellValue, AtWall;
    forall dir: nat | dir < 6 && AtWall(p, c, dir)
      ensures BcpFills(p, x, c, dir)
    {
      BcpFillsOne(p, x, c, dir);
    }
  }

  /** The ghost in direction dir follows the rule of its wall cell. */
  ghost predicate BcpFills(p: Case, x: seq<real>, c: Index, dir: nat)
    requires p.Valid() && Reaches(p.g) && |x| == p.Dim().Size() && p.IsCell(c) && dir < 6
  {
    var y := FilledSides(p.g, PressureRules(p), x, 6);
    NeighbourValue(p, c, dir, y) == GhostValue(PressureRule(p.wall(dir, c)), CellValue(p, c, y), 0.0, 0.0, 0)
  }

  lemma BcpFillsOne(p: Case, x: seq<real>, c: Index, dir: nat)
    requires p.Valid() && Reaches(p.g) && p.g.stp >= 2 && |x| == p.Dim().Size() && p.IsCell(c)
    requires dir < 6 && AtWall(p, c, dir)
    ensures BcpFills(p, x, c, dir)
  {
    hide At, FilledSides;
    assert PressureRules(p)(dir, c) == PressureRule(p.wall(dir, c));
    CellsKept(p.g, PressureRules(p), x, 6, c);
    FirstGhost(p.g, PressureRules(p), x, 6, dir, c);
  }

  /** ... and does not change what the rows see. */
  lemma BcpKeepsRow(p: Case, x: seq<real>, c: Index)
    requires p.Valid() && Reaches(p.g) && |x| == p.Dim().Size() && p.IsCell(c)
    ensures Row(p, c, FilledSides(p.g, PressureRules(p), x, 6)) == Row(p, c, x)
    ensures CellValue(p, c, FilledSides(p.g, PressureRules(p), x, 6)) == CellValue(p, c, x)
  {
    hide At, FilledSides, OffTerm, OwnTerm, AtWall, Dims.Size, Reaches;
    CellsKept(p.g, PressureRules(p), x, 6, c);
    SameOwnTerm(p, c, x, FilledSides(p.g, PressureRules(p), x, 6));
    forall dir: nat | dir < 6
      ensures OffTerm(p, c, dir, FilledSides(p.g, PressureRules(p), x, 6)) == OffTerm(p, c, dir, x)
    {
      OffTermKept(p, x, c, dir);
    }
  }

  lemma SameOwnTerm(p: Case, c: Index, x: seq<real>, y: seq<real>)
    requires p.Valid() && p.IsCell(c) && |x| == |y| == p.Dim().Size() && CellValue(p, c, y) == CellValue(p, c, x)
    ensures OwnTerm(p, c, y) == OwnTerm(p, c, x)
  {
    hide Diagonal, CellValue;
  }

  lemma OffTermKept(p: Case, x: seq<real>, c: Index, dir: nat)
    requires p.Valid() && Reaches(p.g) && |x| == p.Dim().Size() && p.IsCell(c) && dir < 6
    ensures OffTerm(p, c, dir, FilledSides(p.g, PressureRules(p), x, 6)) == OffTerm(p, c, dir, x)
  {
    hide NeighbourValue, FilledSides, AtWall, OffTerm;
    var y := FilledSides(p.g, PressureRules(p), x, 6);
    if AtWall(p, c, dir) {
      NoOffTerm(p, c, dir, x);
      NoOffTerm(p, c, dir, y);
    } else {
      NeighbourKept(p, x, c, dir);
      SameOffTerm(p, c, dir, x, y);
    }
  }

  lemma NoOffTerm(p: Case, c: Index, dir: nat, x: seq<real>)
    requires p.Valid() && p.IsCell(c) && dir < 6 && |x| == p.Dim().Size() && AtWall(p, c, dir)
    ensures OffTerm(p, c, dir, x) == 0.0
  {
    hide NeighbourValue, CoefAt, AtWall;
    assert OffDiagonal(p, c, dir) == 0.0;
  }

  lemma SameOffTerm(p: Case, c: Index, dir: nat, x: seq<real>, y: seq<real>)
    requires p.Valid() && p.IsCell(c) && dir < 6 && |x| == |y| == p.Dim().Size()
    requires NeighbourValue(p, c, dir, y) == NeighbourValue(p, c, dir, x)
    ensures OffTerm(p, c, dir, y) == OffTerm(p, c, dir, x)
  {
    hide NeighbourValue, OffDiagonal;
  }

  lemma NeighbourKept(p: Case, x: seq<real>, c: Index, dir: nat)
    requires p.Valid() && Reaches(p.g) && |x| == p.Dim().Size() && p.IsCell(c) && dir < 6 && !AtWall(p, c, dir)
    ensures NeighbourValue(p, c, dir, FilledSides(p.g, PressureRules(p), x, 6)) == NeighbourValue(p, c, dir, x)
  {
    hide At, FilledSides;
    FaceOfIsFace(p.g, c, dir);
    forall dir': nat | dir' < 6 && p.g.nrk[dir'] == -1
      ensures !OnSide(p.g, dir', Across(c, dir))
    {
      NoGhostAcross(p.g, c, dir, dir');
    }
    OthersKept(p.g, PressureRules(p), x, 6, Across(c, dir));
  }

  ghost predicate Solved(p: Case, x: seq<real>, vel: seq<seq<real>>)
    requires p.Valid() && |x| == p.Dim().Size() && Velocities(p, vel)
  {
    forall c: Index | p.IsCell(c) :: Row(p, c, x) == DivergenceAt(p, c, vel)
  }

  /** x solves the system whose matrix is stored in A. */
  ghost predicate StoredSolved(p: Case, cg: Dims, stm: nat, A: seq<real>, x: seq<real>, vel: seq<seq<real>>)
    requires p.Valid() && |A| == 7 * cg.Size() && CoversCells(p.g, cg, stm) && |x| == p.Dim().Size()
    requires Velocities(p, vel)
  {
    forall jx: int, jy: int, jz: int | p.g.Cells().Has(jx, jy, jz) ::
      p.IsCell(p.g.Padded(jx, jy, jz)) &&
      StoredRow(p.g, cg, stm, A, x, jx, jy, jz) == DivergenceAt(p, p.g.Padded(jx, jy, jz), vel)
  }

  lemma StoredMeansSolved(p: Case, cg: Dims, stm: nat, A: seq<real>, x: seq<real>, vel: seq<seq<real>>)
    requires p.Valid() && |A| == 7 * cg.Size() && CoversCells(p.g, cg, stm) && |x| == p.Dim().Size()
    requires Velocities(p, vel)
    requires RowsSoFar(p.g, EntriesOf(p), cg, stm, A, 0, 0, p.g.n.z) && StoredSolved(p, cg, stm, A, x, vel)
    ensures Solved(p, x, vel)
  {
    hide Row, StoredRow, DivergenceAt, RowsSoFar, EntriesOf;
    forall c: Index | p.IsCell(c)
      ensures Row(p, c, x) == DivergenceAt(p, c, vel)
    {
      var jx, jy, jz := c.x - p.g.stm, c.y - p.g.stm, c.z - p.g.stm;
      assert p.g.Padded(jx, jy, jz) == c && p.g.Cells().Has(jx, jy, jz);
      StoredIsRow(p, cg, stm, A, x, jx, jy, jz);
    }
  }

  ghost predicate AllClean(p: Case)
    requires p.Valid()
  {
    forall c: Index, dir: nat | p.IsCell(c) && dir < 6 :: Clean(p, c, dir)
  }

  /** What every cell's divergence is in the end. */
  ghost predicate OnlyShiftLeft(p: Case, x: seq<real>, vel: seq<seq<real>>)
    requires p.Valid() && |x| == p.Dim().Size() && Velocities(p, vel)
  {
    forall c: Index | p.IsCell(c) :: DivergenceAt(p, c, vel) == -TINY * CellValue(p, c, x)
  }

  /**
   divergence_free from the pressure solve on: bcp, vel_correction and (before bcu) divergence.
   That the solver returned an exact solution of the assembled system is the hypothesis StoredSolved.
   */
  method FromSolution(p: Case, ghost cg: Dims, ghost stm: nat, ghost A: seq<real>,
                      div: array<real>, u: array<real>, v: array<real>, w: array<real>, x: array<real>)
    returns (divMax: real)
    requires p.Valid() && Reaches(p.g) && p.g.stp >= 2 && AllClean(p)
    requires x !in {u, v, w} && u != v && v != w && u != w && div !in {u, v, w, x}
    requires u.Length == v.Length == w.Length == x.Length == p.Dim().Size() && div.Length == p.g.Cells().Size()
    requires |A| == 7 * cg.Size() && CoversCells(p.g, cg, stm)
    requires RowsSoFar(p.g, EntriesOf(p), cg, stm, A, 0, 0, p.g.n.z)
    requires StoredSolved(p, cg, stm, A, x[..], [w[..], v[..], u[..]])
    modifies div, u, v, w, x
    ensures DivergenceSoFar(p, div[..], [w[..], v[..], u[..]], divMax, 0, 0, p.g.n.z)
    ensures OnlyShiftLeft(p, old(x[..]), [w[..], v[..], u[..]])
  {
    hide AllCorrected, Solved, StoredSolved, RowsSoFar, AllClean, OnlyShiftLeft, DivergenceSoFar, FilledSides, Reaches,
         Dims.Size;
    ghost var x0, vel0 := x[..], [w[..], v[..], u[..]];
    StoredMeansSolved(p, cg, stm, A, x0, vel0);
    FillGhosts(p.g, PressureRules(p), x);
    ghost var y := x[..];
    VelCorrection(p, u, v, w, x);
    ghost var vel1 := [w[..], v[..], u[..]];
    StepWorks(p, x0, y, vel0, vel1);
    divMax := Divergence(p, div, u, v, w);
  }

  lemma StepWorks(p: Case, x: seq<real>, y: seq<real>, vel: seq<seq<real>>, vel': seq<seq<real>>)
    requires p.Valid() && Reaches(p.g) && p.g.stp >= 2 && AllClean(p) && |x| == p.Dim().Size()
    requires Velocities(p, vel) && Velocities(p, vel') && y == FilledSides(p.g, PressureRules(p), x, 6)
    requires Solved(p, x, vel) && AllCorrected(p, vel, vel', y)
    ensures OnlyShiftLeft(p, x, vel')
  {
    hide AllCorrected, FilledSides, Reaches, DivergenceAt, Row, CellValue, Clean;
    forall c: Index | p.IsCell(c)
      ensures DivergenceAt(p, c, vel') == -TINY * CellValue(p, c, x)
    {
      BcpFillsGhosts(p, x, c);
      BcpKeepsRow(p, x, c);
      ProjectionClearsDivergence(p, c, vel, vel', y);
    }
  }
}
