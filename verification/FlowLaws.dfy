/**
 What the velocity and pressure steps mean (jupiter/divergence_free.c, 19-226; jupiter/ccse_poisson.c,
 246-495), read off the flat arrays the code runs over: the divergence of a cell, the sign of an inlet,
 the velocity change on a face and the entry that two cells share in the stored matrix.
 */
module FlowLaws {
  import opened Layout
  import opened Slab
  import opened Ranks
  import opened Frames
  import opened Flow
  import opened Projection
  import opened FlowSteps
  import opened MatrixRows
  import opened PressureMatrix
  import Conservation

  ghost predicate OppositeSeq(a: seq<real>, b: seq<real>) {
    |a| == |b| && forall j | 0 <= j < |a| :: b[j] == -a[j]
  }

  /** The same flow with every surface normal turned round. */
  ghost predicate TurnedRound(p: Case, p': Case) {
    p.Valid() && p'.Valid() && p' == p.(norm := p'.norm) && forall k | 0 <= k < 3 :: OppositeSeq(p.norm[k], p'.norm[k])
  }

  ghost predicate OppositeVelocities(p: Case, vel: seq<seq<real>>, vel': seq<seq<real>>)
    requires p.Valid()
  {
    Velocities(p, vel) && Velocities(p, vel') && forall k | 0 <= k < 3 :: OppositeSeq(vel[k], vel'[k])
  }

  lemma InletIsOdd(p: Case, p': Case, k: nat, c: Index)
    requires TurnedRound(p, p') && p.IsFace(k, c)
    ensures p'.IsFace(k, c) && (Inlet(p', k, c).Some? <==> Inlet(p, k, c).Some?)
    ensures Inlet(p, k, c).Some? ==> Inlet(p', k, c).value == -Inlet(p, k, c).value
  {
    hide Addr, Dims.Size;
    FaceCells(p, k, c);
    if Inlet(p, k, c).Some? {
      var t := SurfaceSlot(p, k, c);
      assert OppositeSeq(p.norm[2 - k], p'.norm[2 - k]);
      NegatedTimes(p.surface.value[t].value.vel, p.norm[2 - k][t]);
    }
  }

  lemma NegatedTimes(a: real, b: real)
    ensures a * -b == -(a * b)
  {
  }

  lemma FaceVelocityIsOdd(p: Case, p': Case, k: nat, c: Index, u: seq<real>, u': seq<real>)
    requires TurnedRound(p, p') && p.IsFace(k, c) && |u| == p.Dim().Size() && OppositeSeq(u, u')
    ensures p'.IsFace(k, c) && FaceVelocity(p', k, c, u') == -FaceVelocity(p, k, c, u)
  {
    hide Inlet, Addr, Dims.Size;
    FaceCells(p, k, c);
    InletIsOdd(p, p', k, c);
  }

  lemma AxisIsOdd(p: Case, p': Case, k: nat, c: Index, u: seq<real>, u': seq<real>)
    requires TurnedRound(p, p') && p.IsCell(c) && k < 3 && |u| == p.Dim().Size() && OppositeSeq(u, u')
    ensures p'.IsCell(c) && AxisDivergence(p', k, c, u') == -AxisDivergence(p, k, c, u)
  {
    hide FaceVelocity, Dims.Size;
    FaceVelocityIsOdd(p, p', k, c, u, u');
    FaceVelocityIsOdd(p, p', k, Next(c, k), u, u');
    NegatedDifference(FaceVelocity(p, k, Next(c, k), u), FaceVelocity(p, k, c, u), p.di[k]);
  }

  lemma NegatedDifference(a: real, b: real, d: real)
    ensures (-a - -b) * d == -((a - b) * d)
  {
  }

  /** Turning round the velocities and the surface normals turns round the divergence, inlets included. */
  lemma DivergenceIsOdd(p: Case, p': Case, c: Index, vel: seq<seq<real>>, vel': seq<seq<real>>)
    requires TurnedRound(p, p') && p.IsCell(c) && OppositeVelocities(p, vel, vel')
    ensures p'.IsCell(c) && Velocities(p', vel') && DivergenceAt(p', c, vel') == -DivergenceAt(p, c, vel)
  {
    hide AxisDivergence, Dims.Size;
    AxisIsOdd(p, p', 0, c, vel[0], vel'[0]);
    AxisIsOdd(p, p', 1, c, vel[1], vel'[1]);
    AxisIsOdd(p, p', 2, c, vel[2], vel'[2]);
    NegatedSum(AxisDivergence(p, 2, c, vel[2]), AxisDivergence(p, 1, c, vel[1]), AxisDivergence(p, 0, c, vel[0]),
               1.0 / p.dt);
  }

  lemma NegatedSum(a: real, b: real, c: real, t: real)
    ensures (-a + -b + -c) * t == -((a + b + c) * t)
  {
  }

  /**
   The velocity that counts on the lower face of position j on axis k, from the arrays: an immersed inlet
   at place 3 * j + (2 - k) imposes its own velocity times the normal component at that place.
   */
  function ImposedAt(p: Case, k: nat, j: int, u: seq<real>): real
    requires p.Valid() && k < 3 && |u| == p.Dim().Size() && 0 <= j < |u|
  {
    var t := 3 * j + (2 - k);
    match p.surface
    case None => u[j]
    case Some(bnd) =>
      match bnd[t]
      case Some(Surface(true, true, vel)) => vel * p.norm[2 - k][t]
      case _ => u[j]
  }

  lemma FaceVelocityIs(p: Case, k: nat, c: Index, u: seq<real>)
    requires p.Valid() && p.IsFace(k, c) && |u| == p.Dim().Size()
    ensures var j := Addr(p.Dim(), c.x, c.y, c.z);
            0 <= j < |u| && FaceVelocity(p, k, c, u) == ImposedAt(p, k, j, u)
  {
    hide Addr, Dims.Size;
    FaceCells(p, k, c);
  }

  /** The divergence of a cell at position j: neighbours one, mx and mx * my places further on. */
  lemma DivergenceFromArrays(p: Case, c: Index, vel: seq<seq<real>>)
    requires p.Valid() && p.IsCell(c) && Velocities(p, vel)
    ensures var d := p.Dim(); var j, n := Addr(d, c.x, c.y, c.z), |vel[0]|;
            && 0 <= j && j + d.mx * d.my < n && j + d.mx < n && j + 1 < n && |vel[1]| == |vel[2]| == n
            && DivergenceAt(p, c, vel) * p.dt ==
               (ImposedAt(p, 2, j + 1, vel[2]) - ImposedAt(p, 2, j, vel[2])) * p.di[2] +
               (ImposedAt(p, 1, j + d.mx, vel[1]) - ImposedAt(p, 1, j, vel[1])) * p.di[1] +
               (ImposedAt(p, 0, j + d.mx * d.my, vel[0]) - ImposedAt(p, 0, j, vel[0])) * p.di[0]
  {
    hide Addr, ImposedAt, FaceVelocity, Dims.Size;
    AxisFromArrays(p, 0, c, vel[0]);
    AxisFromArrays(p, 1, c, vel[1]);
    AxisFromArrays(p, 2, c, vel[2]);
    Conservation.OverStep(AxisDivergence(p, 2, c, vel[2]) + AxisDivergence(p, 1, c, vel[1])
        + AxisDivergence(p, 0, c, vel[0]), p.dt);
  }

  lemma AxisFromArrays(p: Case, k: nat, c: Index, u: seq<real>)
    requires p.Valid() && p.IsCell(c) && k < 3 && |u| == p.Dim().Size()
    ensures var j := Addr(p.Dim(), c.x, c.y, c.z); var i := j + Stride(p.Dim(), k);
            && 0 <= j < |u| && 0 <= i < |u|
            && AxisDivergence(p, k, c, u) == (ImposedAt(p, k, i, u) - ImposedAt(p, k, j, u)) * p.di[k]
  {
    hide Addr, ImposedAt, FaceVelocity, Stride, Dims.Size;
    FaceVelocityIs(p, k, c, u);
    FaceVelocityIs(p, k, Next(c, k), u);
    StrideIsStep(p.Dim(), c, k);
  }

  /** The porosity vel_correction uses: the smaller one, but the other one or 1 in place of one that is not positive. */
  ghost predicate IsFacePorosity(e: real, here: real, there: real) {
    && (here > 0.0 && there > 0.0 ==> e <= here && e <= there && (e == here || e == there))
    && (here > 0.0 && there <= 0.0 ==> e == here)
    && (here <= 0.0 && there > 0.0 ==> e == there)
    && (here <= 0.0 && there <= 0.0 ==> e == 1.0)
  }

  /**
   Momentum on a face: the velocity change times the mean density of the two cells, s being their sum, is
   minus the porosity e times the pressure difference over the distance 1 / d, for one time step.
   */
  ghost predicate FaceMomentum(v: real, v': real, s: real, e: real, jump: real, d: real, dt: real) {
    (v' - v) * (s / 2.0) == -(e * (jump * d) * dt)
  }

  /** vel_correction obeys it on every face, from the arrays. */
  lemma CorrectionLaw(p: Case, k: nat, c: Index, u: seq<real>, u': seq<real>, x: seq<real>) returns (e: real)
    requires p.Valid() && k < 3 && p.IsFace(k, c) && |u| == |u'| == |x| == p.Dim().Size()
    requires Corrected(p, k, u, u', x)
    ensures var j := Addr(p.Dim(), c.x, c.y, c.z); var i := j - Stride(p.Dim(), k);
            && 0 <= j < |u| && 0 <= i < |u| && IsFacePorosity(e, p.eps[j], p.eps[i])
            && FaceMomentum(u[j], u'[j], p.dens[j] + p.dens[i], e, x[j] - x[i], p.di[k], p.dt)
  {
    hide Addr, Dims.Size, CorrectionEps, Stride, CorrectedAt, FaceMomentum, Case.IsFace;
    FaceCells(p, k, c);
    StrideIsStep(p.Dim(), c, k);
    var j := Addr(p.Dim(), c.x, c.y, c.z);
    var i := j - Stride(p.Dim(), k);
    CorrectionIs(p, k, c, u, x, j, i);
    e := CorrectionEps(p.eps[j], p.eps[i]);
    PorosityIs(p.eps[j], p.eps[i]);
    assert u'[j] == CorrectedAt(p, k, c, u, x);
    DropLaw(e, p.dens[j] + p.dens[i], x[j] - x[i], p.di[k], p.dt, u[j], u'[j]);
  }

  lemma PorosityIs(here: real, there: real)
    ensures IsFacePorosity(CorrectionEps(here, there), here, there)
  {
  }

  lemma DropLaw(e: real, s: real, jump: real, d: real, dt: real, v: real, v': real)
    requires s > 0.0 && v' == v - e * 2.0 / s * jump * d * dt
    ensures FaceMomentum(v, v', s, e, jump, d, dt)
  {
    var q, h := e * 2.0 / s, s / 2.0;
    assert q * s == e * 2.0;
    assert q * h == e;
    assert (q * jump * d * dt) * h == (q * h) * (jump * d) * dt;
  }

  /**
   What an entry a between positions j and i has to be, from densities, porosities and spacing alone: a
   times the mean density is the smaller porosity over the squared distance.
   */
  predicate CoefLaw(p: Case, a: real, k: nat, j: int, i: int)
    requires p.Valid() && k < 3 && 0 <= j < p.Dim().Size() && 0 <= i < p.Dim().Size()
  {
    var e := if !p.porous then 1.0 else if p.eps[j] <= p.eps[i] then p.eps[j] else p.eps[i];
    a * (p.dens[j] + p.dens[i]) == 2.0 * e * (p.di[k] * p.di[k])
  }

  /** The stored entry between two cells obeys it; beside a wall and across an inlet nothing is stored. */
  lemma StoredFaceLaw(p: Case, cg: Dims, stm: nat, A: seq<real>, jx: int, jy: int, jz: int, q: nat)
    requires p.Valid() && |A| == 7 * cg.Size() && CoversCells(p.g, cg, stm)
    requires RowsSoFar(p.g, EntriesOf(p), cg, stm, A, 0, 0, p.g.n.z) && p.g.Cells().Has(jx, jy, jz) && q < 7 && q != 3
    ensures var c := p.g.Padded(jx, jy, jz); var dir := EntryDir(q);
            var o := Across(c, dir);
            var j, i := Addr(p.Dim(), c.x, c.y, c.z), Addr(p.Dim(), o.x, o.y, o.z);
            && p.IsFace(dir / 2, FaceOf(c, dir)) && 0 <= j < p.Dim().Size() && 0 <= i < p.Dim().Size()
            && if AtWall(p, c, dir) || Inlet(p, dir / 2, FaceOf(c, dir)).Some? then A[Slot(cg, stm, jx, jy, jz, q)] ==
               0.0
               else CoefLaw(p, A[Slot(cg, stm, jx, jy, jz, q)], dir / 2, j, i)
  {
    hide Addr, Slot, OffDiagonal, Inlet, Dims.Size, CoefLaw;
    StoredBeside(p, cg, stm, A, jx, jy, jz, q);
    OffDiagonalLaw(p, p.g.Padded(jx, jy, jz), EntryDir(q));
  }

  lemma StoredBeside(p: Case, cg: Dims, stm: nat, A: seq<real>, jx: int, jy: int, jz: int, q: nat)
    requires p.Valid() && |A| == 7 * cg.Size() && CoversCells(p.g, cg, stm)
    requires RowsSoFar(p.g, EntriesOf(p), cg, stm, A, 0, 0, p.g.n.z) && p.g.Cells().Has(jx, jy, jz) && q < 7 && q != 3
    ensures p.IsCell(p.g.Padded(jx, jy, jz))
    ensures A[Slot(cg, stm, jx, jy, jz, q)] == OffDiagonal(p, p.g.Padded(jx, jy, jz), EntryDir(q))
  {
    hide Slot, OffDiagonal;
    EntryCellIsInside(p.g, jx, jy, jz, q);
    assert Before(jx, jy, jz, 0, 0, p.g.n.z);
  }

  lemma OffDiagonalLaw(p: Case, c: Index, dir: nat)
    requires p.Valid() && p.IsCell(c) && dir < 6
    ensures var o := Across(c, dir);
            var j, i := Addr(p.Dim(), c.x, c.y, c.z), Addr(p.Dim(), o.x, o.y, o.z);
            && p.IsFace(dir / 2, FaceOf(c, dir)) && 0 <= j < p.Dim().Size() && 0 <= i < p.Dim().Size()
            && if AtWall(p, c, dir) || Inlet(p, dir / 2, FaceOf(c, dir)).Some? then OffDiagonal(p, c, dir) == 0.0
               else CoefLaw(p, OffDiagonal(p, c, dir), dir / 2, j, i)
  {
    hide Addr, Inlet, Dims.Size, Mobility, CoefLaw, MatrixEps, DensitySum;
    FaceOfIsFace(p.g, c, dir);
    var k, f := dir / 2, FaceOf(c, dir);
    if !AtWall(p, c, dir) && Inlet(p, k, f).None? {
      OpenFaceLaw(p, k, f);
      assert OffDiagonal(p, c, dir) == Coef(p, k, f);
      assert if dir % 2 == 0 then f == c && Prev(f, k) == Across(c, dir) else f == Across(c, dir) && Prev(f, k) == c;
      SwappedLaw(p, OffDiagonal(p, c, dir), k, Addr(p.Dim(), f.x, f.y, f.z),
                 Addr(p.Dim(), Prev(f, k).x, Prev(f, k).y, Prev(f, k).z));
    }
  }

  lemma OpenFaceLaw(p: Case, k: nat, f: Index)
    requires p.Valid() && p.IsFace(k, f)
    ensures var b := Prev(f, k);
            var j, i := Addr(p.Dim(), f.x, f.y, f.z), Addr(p.Dim(), b.x, b.y, b.z);
            && 0 <= j < p.Dim().Size() && 0 <= i < p.Dim().Size()
            && (Inlet(p, k, f).None? ==> CoefLaw(p, Coef(p, k, f), k, j, i))
  {
    hide Addr, Dims.Size, Mobility, Inlet;
    FaceCells(p, k, f);
    MobilityLaw(MatrixEps(p, k, f), DensitySum(p, k, f), p.di[k]);
  }

  lemma SwappedLaw(p: Case, a: real, k: nat, j: int, i: int)
    requires p.Valid() && k < 3 && 0 <= j < p.Dim().Size() && 0 <= i < p.Dim().Size() && CoefLaw(p, a, k, j, i)
    ensures CoefLaw(p, a, k, i, j)
  {
  }

  lemma MobilityLaw(e: real, s: real, d: real)
    requires s > 0.0
    ensures e * Mobility(s, d) * s == 2.0 * e * (d * d)
  {
    var q := 2.0 / s;
    assert q * s == 2.0;
    assert e * (q * (d * d)) * s == e * (q * s) * (d * d);
  }

  /** In a uniform field a face that is no outlet gives nothing. */
  lemma UniformPart(p: Case, c: Index, dir: nat, x: seq<real>, v: real)
    requires p.Valid() && p.IsCell(c) && dir < 6 && |x| == p.Dim().Size() && !AtOut(p, c, dir)
    requires forall j | 0 <= j < |x| :: x[j] == v
    ensures OffTerm(p, c, dir, x) - DiagonalPart(p, c, dir) * v == 0.0
  {
    hide CoefAt, Addr, Dims.Size;
    FaceOfIsFace(p.g, c, dir);
    assert NeighbourValue(p, c, dir, x) == v;
  }

  /** So away from outlets the row of a uniform field is the shift of 1e-10 alone. */
  lemma UniformLaw(p: Case, cg: Dims, stm: nat, A: seq<real>, x: seq<real>, v: real, jx: int, jy: int, jz: int)
    requires p.Valid() && |A| == 7 * cg.Size() && CoversCells(p.g, cg, stm) && |x| == p.Dim().Size()
    requires RowsSoFar(p.g, EntriesOf(p), cg, stm, A, 0, 0, p.g.n.z) && p.g.Cells().Has(jx, jy, jz)
    requires forall j | 0 <= j < |x| :: x[j] == v
    requires forall dir: nat | dir < 6 :: !AtOut(p, p.g.Padded(jx, jy, jz), dir)
    ensures StoredRow(p.g, cg, stm, A, x, jx, jy, jz) == -0.0000000001 * v
  {
    hide RowsSoFar, StoredRow, EntriesOf, OffTerm, DiagonalPart, Addr, Dims.Size, AtOut;
    var c := p.g.Padded(jx, jy, jz);
    StoredIsRow(p, cg, stm, A, x, jx, jy, jz);
    forall dir: nat | dir < 6
      ensures OffTerm(p, c, dir, x) - DiagonalPart(p, c, dir) * v == 0.0
    {
      UniformPart(p, c, dir, x, v);
    }
    FaceOfIsFace(p.g, c, 0);
    assert CellValue(p, c, x) == v;
    DiagonalRing(DiagonalPart(p, c, 0), DiagonalPart(p, c, 1), DiagonalPart(p, c, 2),
                 DiagonalPart(p, c, 3), DiagonalPart(p, c, 4), DiagonalPart(p, c, 5), TINY, v);
  }
}
