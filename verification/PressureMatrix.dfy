/**
 make_matrix_array (jupiter/ccse_poisson.c, 212-495): the 7-point pressure matrix with its ghost
 cells eliminated, assembled the way the code does it, against the entries of Projection.
 IBM only enters through factors that the code computes and does not use.
 */
module PressureMatrix {
  import opened Layout
  import opened Slab
  import opened Ranks
  import opened Frames
  import opened Flow
  import opened Projection
  import opened FlowSteps
  import opened MatrixRows

  function Entry(p: Case, c: Index, q: nat): real
    requires p.Valid() && p.IsCell(c) && q < 7
  {
    if q == 3 then Diagonal(p, c) else OffDiagonal(p, c, EntryDir(q))
  }

  /** The whole matrix. */
  ghost function EntriesOf(p: Case): Entries
    requires p.Valid()
  {
    (c: Index, q: nat) => if p.IsCell(c) && q < 7 then Entry(p, c, q) else 0.0
  }

  /** A face coefficient as the code forms it from the two cells it separates. */
  method RawCoef(p: Case, j: int, i: int, k: nat, ghost c: Index) returns (a: real)
    requires p.Valid() && p.IsFace(k, c) && k < 3
    requires var b := Prev(c, k); var jc, jb := Addr(p.Dim(), c.x, c.y, c.z), Addr(p.Dim(), b.x, b.y, b.z);
             (j == jc && i == jb) || (j == jb && i == jc)
    ensures a == MatrixEps(p, k, c) * Mobility(DensitySum(p, k, c), p.di[k])
  {
    hide Addr;
    FaceCells(p, k, c);
    var ep := if p.porous then Min(p.eps[j], p.eps[i]) else 1.0;
    var s := p.dens[j] + p.dens[i];
    assert s == DensitySum(p, k, c);
    assert ep == MatrixEps(p, k, c);
    CoefRing(ep, s, p.di[k]);
    a := ep * 2.0 / s * (p.di[k] * p.di[k]);
  }

  lemma CoefRing(e: real, s: real, d: real)
    requires s > 0.0
    ensures e * 2.0 / s * (d * d) == e * Mobility(s, d)
  {
    var q := 2.0 / s;
    assert e * 2.0 / s == e * q;
  }

  /** surface_boundary_matrix_coeff_P: returns the new diagonal and the new coefficient. */
  function SurfaceCoef(s: Surface, cc: real, cn: real): (real, real) {
    if s.inlet && s.normal then (cc + cn, 0.0) else (cc, cn)
  }

  /** boundary_matrix_coeff_P. */
  function BoundaryCoef(fp: FluidBoundary, cc: real, cn: real): real {
    if fp.Out? then cc - cn else cc + cn
  }

  /** One direction of the surface_bnd block. */
  method CloseInlet(p: Case, k: nat, j: int, cc: real, cn: real, ghost c: Index) returns (cc': real, cn': real)
    requires p.Valid() && k < 3 && p.IsFace(k, c) && j == Addr(p.Dim(), c.x, c.y, c.z)
    requires cn == MatrixEps(p, k, c) * Mobility(DensitySum(p, k, c), p.di[k])
    ensures cn' == Coef(p, k, c) && cc' == cc + cn - cn'
  {
    hide Addr, MatrixEps, Mobility, DensitySum;
    FaceCells(p, k, c);
    cc', cn' := cc, cn;
    if p.surface.Some? {
      var s := p.surface.value[3 * j + 2 - k];
      if s.Some? {
        var r := SurfaceCoef(s.value, cc, cn);
        cc', cn' := r.0, r.1;
      }
    }
  }

  /** One direction of the wall block: the column index becomes the sentinel -1 and the diagonal absorbs the ghost. */
  method CloseWall(p: Case, dir: nat, col: int, cc: real, cn: real, c: Index) returns (col': int, cc': real)
    requires p.Valid() && dir < 6 && p.IsCell(c) && cn == CoefAt(p, c, dir)
    ensures col' == if AtWall(p, c, dir) then -1 else col
    ensures cc' == cc + cn - DiagonalPart(p, c, dir)
  {
    hide CoefAt;
    col', cc' := col, cc;
    if AtWall(p, c, dir) {
      col' := -1;
      cc' := BoundaryCoef(p.wall(dir, c), cc, cn);
    }
  }

  /** The six coefficients of a cell after the surface block, and the diagonal that goes with them. */
  method OpenCoefs(p: Case, c: Index) returns (cc: real, cw: real, ce: real, cs: real, cn: real, cb: real, ct: real)
    requires p.Valid() && p.IsCell(c)
    ensures cb == CoefAt(p, c, 0) && ct == CoefAt(p, c, 1) && cs == CoefAt(p, c, 2)
    ensures cn == CoefAt(p, c, 3) && cw == CoefAt(p, c, 4) && ce == CoefAt(p, c, 5)
    ensures cc == -(cw + ce + cs + cn + cb + ct + TINY)
  {
    hide Addr, Coef, MatrixEps, Mobility, DensitySum;
    var d := p.Dim();
    var mx, mxy := d.mx, d.mx * d.my;
    var j := Addr(d, c.x, c.y, c.z);
    StrideIsStep(d, c, 0);
    StrideIsStep(d, c, 1);
    StrideIsStep(d, c, 2);
    cw := RawCoef(p, j, j - 1, 2, c);
    ce := RawCoef(p, j, j + 1, 2, Next(c, 2));
    cs := RawCoef(p, j, j - mx, 1, c);
    cn := RawCoef(p, j, j + mx, 1, Next(c, 1));
    cb := RawCoef(p, j, j - mxy, 0, c);
    ct := RawCoef(p, j, j + mxy, 0, Next(c, 0));
    cc := -(cw + ce + cs + cn + cb + ct + TINY);
    cc, cw := CloseInlet(p, 2, j, cc, cw, c);
    cc, ce := CloseInlet(p, 2, j + 1, cc, ce, Next(c, 2));
    cc, cs := CloseInlet(p, 1, j, cc, cs, c);
    cc, cn := CloseInlet(p, 1, j + mx, cc, cn, Next(c, 1));
    cc, cb := CloseInlet(p, 0, j, cc, cb, c);
    cc, ct := CloseInlet(p, 0, j + mxy, cc, ct, Next(c, 0));
  }

  /** One row of the matrix, in the order b, s, w, c, e, n, t. */
  method AssembleRow(p: Case, rank: int, jx: nat, jy: nat, jz: nat) returns (row: seq<real>)
    requires p.Valid() && RankKnown(p.g, rank) && p.g.Cells().Has(jx, jy, jz)
    ensures |row| == 7 && forall q | 0 <= q < 7 :: row[q] == Entry(p, p.g.Padded(jx, jy, jz), q)
  {
    hide CoefAt, Addr;
    var c := p.g.Padded(jx, jy, jz);
    var cc, cw, ce, cs, cn, cb, ct := OpenCoefs(p, c);
    var icc := RowNumber(p.g, rank, jx, jy, jz);
    var icw, ice, ics, icn, icb, ict :=
      Column(p.g, rank, jx, jy, jz, 4), Column(p.g, rank, jx, jy, jz, 5), Column(p.g, rank, jx, jy, jz, 2),
      Column(p.g, rank, jx, jy, jz, 3), Column(p.g, rank, jx, jy, jz, 0), Column(p.g, rank, jx, jy, jz, 1);
    SentinelIsSafe(p.g, rank, jx, jy, jz, 0);
    SentinelIsSafe(p.g, rank, jx, jy, jz, 1);
    SentinelIsSafe(p.g, rank, jx, jy, jz, 2);
    SentinelIsSafe(p.g, rank, jx, jy, jz, 3);
    SentinelIsSafe(p.g, rank, jx, jy, jz, 4);
    SentinelIsSafe(p.g, rank, jx, jy, jz, 5);
    icw, cc := CloseWall(p, 4, icw, cc, cw, c);
    ice, cc := CloseWall(p, 5, ice, cc, ce, c);
    ics, cc := CloseWall(p, 2, ics, cc, cs, c);
    icn, cc := CloseWall(p, 3, icn, cc, cn, c);
    icb, cc := CloseWall(p, 0, icb, cc, cb, c);
    ict, cc := CloseWall(p, 1, ict, cc, ct, c);
    row := [if icb != -1 then cb else 0.0, if ics != -1 then cs else 0.0, if icw != -1 then cw else 0.0,
            if icc != -1 then cc else 0.0,
            if ice != -1 then ce else 0.0, if icn != -1 then cn else 0.0, if ict != -1 then ct else 0.0];
  }

  /** make_matrix_array: A holds every row; cg and stm are the solver's own layout. */
  method MakeMatrix(p: Case, rank: int, cg: Dims, stm: nat, A: array<real>)
    requires p.Valid() && RankKnown(p.g, rank) && A.Length == 7 * cg.Size() && CoversCells(p.g, cg, stm)
    modifies A
    ensures RowsSoFar(p.g, EntriesOf(p), cg, stm, A[..], 0, 0, p.g.n.z)
  {
    hide RowsSoFar, RowStored, Entry, Addr;
    NoRows(p.g, EntriesOf(p), cg, stm, A[..]);
    for jz := 0 to p.g.n.z
      invariant RowsSoFar(p.g, EntriesOf(p), cg, stm, A[..], 0, 0, jz)
    {
      for jy := 0 to p.g.n.y
        invariant RowsSoFar(p.g, EntriesOf(p), cg, stm, A[..], 0, jy, jz)
      {
        for jx := 0 to p.g.n.x
          invariant RowsSoFar(p.g, EntriesOf(p), cg, stm, A[..], jx, jy, jz)
        {
          ghost var before := A[..];
          var row := AssembleRow(p, rank, jx, jy, jz);
          StoreRow(cg, stm, A, jx, jy, jz, row);
          RowStep(p.g, EntriesOf(p), cg, stm, before, A[..], jx, jy, jz, row);
        }
        RowsLine(p.g, EntriesOf(p), cg, stm, A[..], jy, jz);
      }
      RowsPlane(p.g, EntriesOf(p), cg, stm, A[..], jz);
    }
  }

  /** The stored array, applied to a field, is the matrix of Projection. */
  lemma StoredIsRow(p: Case, cg: Dims, stm: nat, A: seq<real>, x: seq<real>, jx: int, jy: int, jz: int)
    requires p.Valid() && |A| == 7 * cg.Size() && CoversCells(p.g, cg, stm) && |x| == p.Dim().Size()
    requires RowsSoFar(p.g, EntriesOf(p), cg, stm, A, 0, 0, p.g.n.z) && p.g.Cells().Has(jx, jy, jz)
    ensures p.IsCell(p.g.Padded(jx, jy, jz))
    ensures StoredRow(p.g, cg, stm, A, x, jx, jy, jz) == Row(p, p.g.Padded(jx, jy, jz), x)
  {
    hide RowsSoFar, StoredTerm, OffTerm, OwnTerm, EntriesOf;
    forall q: nat | q < 7
      ensures StoredTerm(p.g, cg, stm, A, x, jx, jy, jz, q) ==
              if q == 3 then OwnTerm(p, p.g.Padded(jx, jy, jz), x)
                  else OffTerm(p, p.g.Padded(jx, jy, jz), EntryDir(q), x)
    {
      TermOfRow(p, cg, stm, A, x, jx, jy, jz, q);
    }
  }

  lemma TermOfRow(p: Case, cg: Dims, stm: nat, A: seq<real>, x: seq<real>, jx: int, jy: int, jz: int, q: nat)
    requires p.Valid() && |A| == 7 * cg.Size() && CoversCells(p.g, cg, stm) && |x| == p.Dim().Size()
    requires RowsSoFar(p.g, EntriesOf(p), cg, stm, A, 0, 0, p.g.n.z) && p.g.Cells().Has(jx, jy, jz) && q < 7
    ensures p.IsCell(p.g.Padded(jx, jy, jz))
    ensures StoredTerm(p.g, cg, stm, A, x, jx, jy, jz, q) ==
            if q == 3 then OwnTerm(p, p.g.Padded(jx, jy, jz), x) else OffTerm(p, p.g.Padded(jx, jy, jz), EntryDir(q), x)
  {
    hide RowsSoFar, StoredTerm, Diagonal, OffDiagonal, At, Dims.Size;
    EntryCellIsInside(p.g, jx, jy, jz, q);
    StoredTermIs(p.g, EntriesOf(p), cg, stm, A, x, jx, jy, jz, q);
  }
}
