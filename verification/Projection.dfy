/**
 The pressure projection (jupiter/divergence_free.c, 228-325; jupiter/ccse_poisson.c, 246-495;
 jupiter/boundary.c, 535-558): what correcting the velocity by a pressure that solves the
 assembled system does to the divergence.  An exact identity over the reals, cell by cell.
 */
module Projection {
  import opened Layout
  import opened Slab
  import opened Ranks
  import opened Frames
  import opened Flow

  /** The matrix entry that couples c to its neighbour in direction dir. */
  function OffDiagonal(p: Case, c: Index, dir: nat): real
    requires p.Valid() && p.IsCell(c) && dir < 6
  {
    if AtWall(p, c, dir) then 0.0 else CoefAt(p, c, dir)
  }

  /** What the face in direction dir takes from the diagonal: a wall closes it, an outflow doubles it. */
  function DiagonalPart(p: Case, c: Index, dir: nat): real
    requires p.Valid() && p.IsCell(c) && dir < 6
  {
    if !AtWall(p, c, dir) then CoefAt(p, c, dir)
    else if AtOut(p, c, dir) then 2.0 * CoefAt(p, c, dir)
    else 0.0
  }

  function Diagonal(p: Case, c: Index): real
    requires p.Valid() && p.IsCell(c)
  {
    -(TINY + DiagonalPart(p, c, 0) + DiagonalPart(p, c, 1) + DiagonalPart(p, c, 2) +
      DiagonalPart(p, c, 3) + DiagonalPart(p, c, 4) + DiagonalPart(p, c, 5))
  }

  function OwnTerm(p: Case, c: Index, x: seq<real>): real
    requires p.Valid() && p.IsCell(c) && |x| == p.Dim().Size()
  {
    Diagonal(p, c) * CellValue(p, c, x)
  }

  /** Row c of the matrix applied to the padded field x. */
  function Row(p: Case, c: Index, x: seq<real>): real
    requires p.Valid() && p.IsCell(c) && |x| == p.Dim().Size()
  {
    OffTerm(p, c, 0, x) + OffTerm(p, c, 1, x) + OffTerm(p, c, 2, x) +
    OffTerm(p, c, 3, x) + OffTerm(p, c, 4, x) + OffTerm(p, c, 5, x) + OwnTerm(p, c, x)
  }

  function CellValue(p: Case, c: Index, x: seq<real>): real
    requires p.Valid() && p.IsCell(c) && |x| == p.Dim().Size()
  {
    At(x, p.Dim(), c)
  }

  function NeighbourValue(p: Case, c: Index, dir: nat, x: seq<real>): real
    requires p.Valid() && p.IsCell(c) && dir < 6 && |x| == p.Dim().Size()
  {
    FaceOfIsFace(p.g, c, dir);
    At(x, p.Dim(), Across(c, dir))
  }

  function OffTerm(p: Case, c: Index, dir: nat, x: seq<real>): real
    requires p.Valid() && p.IsCell(c) && dir < 6 && |x| == p.Dim().Size()
  {
    OffDiagonal(p, c, dir) * NeighbourValue(p, c, dir, x)
  }

  /** The pressure ghosts as `bcp` leaves them: mirrored at a wall, reflected about the outlet pressure at an outlet. */
  predicate GhostsFilled(p: Case, x: seq<real>, c: Index)
    requires p.Valid() && p.IsCell(c) && |x| == p.Dim().Size()
  {
    forall dir: nat | dir < 6 && AtWall(p, c, dir) ::
      NeighbourValue(p, c, dir, x) ==
      match p.wall(dir, c)
      case Out(ConstPressure(value)) => 2.0 * value - CellValue(p, c, x)
      case Out(NeumannPressure) => CellValue(p, c, x)
      case NotOut => CellValue(p, c, x)
  }

  /** Velocity component k on the lower face of c, as divergence uses it. */
  function FaceVelocity(p: Case, k: nat, c: Index, u: seq<real>): real
    requires p.Valid() && p.IsFace(k, c) && |u| == p.Dim().Size()
  {
    FaceCells(p, k, c);
    if Inlet(p, k, c).Some? then Inlet(p, k, c).value else At(u, p.Dim(), c)
  }

  /** The flow through the lower and the upper face of c on axis k. */
  function AxisDivergence(p: Case, k: nat, c: Index, u: seq<real>): real
    requires p.Valid() && p.IsCell(c) && k < 3 && |u| == p.Dim().Size()
  {
    (FaceVelocity(p, k, Next(c, k), u) - FaceVelocity(p, k, c, u)) * p.di[k]
  }

  /** divergence: vel[k] is the component along axis k, so vel[2] is u and vel[0] is w. */
  function DivergenceAt(p: Case, c: Index, vel: seq<seq<real>>): real
    requires p.Valid() && p.IsCell(c) && |vel| == 3 && (forall k | 0 <= k < 3 :: |vel[k]| == p.Dim().Size())
  {
    (AxisDivergence(p, 2, c, vel[2]) + AxisDivergence(p, 1, c, vel[1]) + AxisDivergence(p, 0, c, vel[0])) * (1.0 / p.dt)
  }

  /** The pressure difference across the lower face of c. */
  function Jump(p: Case, k: nat, c: Index, x: seq<real>): real
    requires p.Valid() && p.IsFace(k, c) && |x| == p.Dim().Size()
  {
    FaceCells(p, k, c);
    At(x, p.Dim(), c) - At(x, p.Dim(), Prev(c, k))
  }

  /** The velocity change vel_correction makes on a face. */
  function Drop(e: real, s: real, jump: real, d: real, dt: real): real
    requires s > 0.0
  {
    e * 2.0 / s * jump * d * dt
  }

  /** The flux the correction takes off a face. */
  function Taken(e: real, s: real, jump: real, d: real, dt: real): real
    requires s > 0.0
  {
    e * Mobility(s, d) * jump * dt
  }

  lemma DropIsFlux(e: real, s: real, jump: real, d: real, dt: real)
    requires s > 0.0
    ensures Drop(e, s, jump, d, dt) * d == Taken(e, s, jump, d, dt)
  {
    var q := 2.0 / s;
    assert e * 2.0 / s == e * q;
    assert (e * q * jump * d * dt) * d == e * (q * (d * d)) * jump * dt;
  }

  /** The corrected velocity on the lower face of c. */
  function CorrectedAt(p: Case, k: nat, c: Index, u: seq<real>, x: seq<real>): real
    requires p.Valid() && p.IsFace(k, c) && |u| == |x| == p.Dim().Size()
  {
    FaceCells(p, k, c);
    At(u, p.Dim(), c) - Drop(FaceEps(p, k, c), DensitySum(p, k, c), Jump(p, k, c, x), p.di[k], p.dt)
  }

  /** u' is u after vel_correction with pressure x. */
  ghost predicate Corrected(p: Case, k: nat, u: seq<real>, u': seq<real>, x: seq<real>)
    requires p.Valid() && k < 3 && |u| == |u'| == |x| == p.Dim().Size()
  {
    forall c: Index | p.IsFace(k, c) ::
      p.Dim().Has(c.x, c.y, c.z) && At(u', p.Dim(), c) == CorrectedAt(p, k, c, u, x)
  }

  /** One face: with an inlet on it nothing changes, otherwise the pressure difference enters. */
  lemma FaceChange(p: Case, k: nat, c: Index, u: seq<real>, u': seq<real>, x: seq<real>)
    requires p.Valid() && k < 3 && p.IsFace(k, c) && |u| == |u'| == |x| == p.Dim().Size()
    requires Corrected(p, k, u, u', x)
    ensures FaceVelocity(p, k, c, u') * p.di[k] ==
            FaceVelocity(p, k, c, u) * p.di[k] - CorrectionCoef(p, k, c) * Jump(p, k, c, x) * p.dt
  {
    hide Inlet, FaceEps, Addr, At, Mobility, Drop, Jump, DensitySum, Corrected;
    if Inlet(p, k, c).None? {
      OpenFaceChange(p, k, c, u, u', x);
    }
  }

  /** A face without an inlet. */
  lemma OpenFaceChange(p: Case, k: nat, c: Index, u: seq<real>, u': seq<real>, x: seq<real>)
    requires p.Valid() && k < 3 && p.IsFace(k, c) && |u| == |u'| == |x| == p.Dim().Size()
    requires Corrected(p, k, u, u', x) && Inlet(p, k, c).None?
    ensures FaceVelocity(p, k, c, u') * p.di[k] ==
            FaceVelocity(p, k, c, u) * p.di[k]
                - Taken(FaceEps(p, k, c), DensitySum(p, k, c), Jump(p, k, c, x), p.di[k], p.dt)
  {
    hide Inlet, FaceEps, Addr, Drop, Jump, DensitySum, At, Dims.Size, Taken, Corrected, FaceVelocity;
    var e, s, jump := FaceEps(p, k, c), DensitySum(p, k, c), Jump(p, k, c, x);
    OpenFaceVelocity(p, k, c, u, u', x);
    DropIsFlux(e, s, jump, p.di[k], p.dt);
    FluxRing(FaceVelocity(p, k, c, u), FaceVelocity(p, k, c, u'), Drop(e, s, jump, p.di[k], p.dt), p.di[k],
             Taken(e, s, jump, p.di[k], p.dt));
  }

  lemma OpenFaceVelocity(p: Case, k: nat, c: Index, u: seq<real>, u': seq<real>, x: seq<real>)
    requires p.Valid() && k < 3 && p.IsFace(k, c) && |u| == |u'| == |x| == p.Dim().Size()
    requires Corrected(p, k, u, u', x) && Inlet(p, k, c).None?
    ensures FaceVelocity(p, k, c, u') ==
            FaceVelocity(p, k, c, u) - Drop(FaceEps(p, k, c), DensitySum(p, k, c), Jump(p, k, c, x), p.di[k], p.dt)
  {
    hide Inlet, FaceEps, Addr, Drop, Jump, DensitySum, At, Dims.Size, Mobility, Case.IsFace;
    assert At(u', p.Dim(), c) == CorrectedAt(p, k, c, u, x);
  }

  lemma FluxRing(u: real, v: real, drop: real, d: real, flux: real)
    requires v == u - drop && drop * d == flux
    ensures v * d == u * d - flux
  {
  }

  /** The coefficient vel_correction effectively uses on the face of c in direction dir. */
  function CorrectionCoefAt(p: Case, c: Index, dir: nat): real
    requires p.Valid() && p.IsCell(c) && dir < 6
  {
    FaceOfIsFace(p.g, c, dir);
    CorrectionCoef(p, dir / 2, FaceOf(c, dir))
  }

  /** The pressure difference towards direction dir. */
  function Slope(p: Case, c: Index, dir: nat, x: seq<real>): real
    requires p.Valid() && p.IsCell(c) && dir < 6 && |x| == p.Dim().Size()
  {
    NeighbourValue(p, c, dir, x) - CellValue(p, c, x)
  }

  /** What the matrix row leaves out at an outlet whose ghost is not the negative of the cell. */
  function OutletDefect(p: Case, c: Index, dir: nat, x: seq<real>): real
    requires p.Valid() && p.IsCell(c) && dir < 6 && |x| == p.Dim().Size()
  {
    if AtOut(p, c, dir) then CoefAt(p, c, dir) * (NeighbourValue(p, c, dir, x) + CellValue(p, c, x)) else 0.0
  }

  /** What the correction does differently from the matrix where the porosity factors differ. */
  function PorosityDefect(p: Case, c: Index, dir: nat, x: seq<real>): real
    requires p.Valid() && p.IsCell(c) && dir < 6 && |x| == p.Dim().Size()
  {
    (CorrectionCoefAt(p, c, dir) - CoefAt(p, c, dir)) * Slope(p, c, dir, x)
  }

  /** The defects of the face of c in direction dir. */
  function Defect(p: Case, c: Index, dir: nat, x: seq<real>): real
    requires p.Valid() && p.IsCell(c) && dir < 6 && |x| == p.Dim().Size()
  {
    OutletDefect(p, c, dir, x) + PorosityDefect(p, c, dir, x)
  }

  function Defects(p: Case, c: Index, x: seq<real>): real
    requires p.Valid() && p.IsCell(c) && |x| == p.Dim().Size()
  {
    Defect(p, c, 0, x) + Defect(p, c, 1, x) + Defect(p, c, 2, x) +
    Defect(p, c, 3, x) + Defect(p, c, 4, x) + Defect(p, c, 5, x)
  }

  /** One face of the matrix row: the eliminated ghost counts as if it were there, up to the outlet defect. */
  lemma FaceOfRow(p: Case, c: Index, dir: nat, x: seq<real>)
    requires p.Valid() && p.IsCell(c) && dir < 6 && |x| == p.Dim().Size() && GhostsFilled(p, x, c)
    ensures OffTerm(p, c, dir, x) - DiagonalPart(p, c, dir) * CellValue(p, c, x) ==
            CorrectionCoefAt(p, c, dir) * Slope(p, c, dir, x) - Defect(p, c, dir, x)
  {
    hide CoefAt, CorrectionCoefAt, NeighbourValue, CellValue;
    var k, m, nb, v := CoefAt(p, c, dir), CorrectionCoefAt(p, c, dir), NeighbourValue(p, c, dir, x), CellValue(p, c, x);
    FaceRing(k, m, nb, v);
  }

  lemma FaceRing(k: real, m: real, nb: real, v: real)
    ensures k * nb - k * v == m * (nb - v) - (0.0 + (m - k) * (nb - v))
    ensures 0.0 * nb - (2.0 * k) * v == m * (nb - v) - (k * (nb + v) + (m - k) * (nb - v))
    ensures nb == v ==> 0.0 * nb - 0.0 * v == m * (nb - v) - (0.0 + (m - k) * (nb - v))
  {
  }

  /** The row as a whole: the balance of the corrected fluxes, the shift and the defects. */
  lemma RowIsBalance(p: Case, c: Index, x: seq<real>)
    requires p.Valid() && p.IsCell(c) && |x| == p.Dim().Size() && GhostsFilled(p, x, c)
    ensures Row(p, c, x) ==
            Balance(p, c, x) - Defects(p, c, x) - TINY * CellValue(p, c, x)
  {
    hide OffTerm, DiagonalPart, CellValue, Defect, CorrectionCoefAt, Slope, GhostsFilled;
    FaceOfRow(p, c, 0, x);
    FaceOfRow(p, c, 1, x);
    FaceOfRow(p, c, 2, x);
    FaceOfRow(p, c, 3, x);
    FaceOfRow(p, c, 4, x);
    FaceOfRow(p, c, 5, x);
    DiagonalRing(DiagonalPart(p, c, 0), DiagonalPart(p, c, 1), DiagonalPart(p, c, 2),
                 DiagonalPart(p, c, 3), DiagonalPart(p, c, 4), DiagonalPart(p, c, 5), TINY, CellValue(p, c, x));
  }

  lemma DiagonalRing(a: real, b: real, c: real, d: real, e: real, f: real, t: real, v: real)
    ensures -(t + a + b + c + d + e + f) * v == -(a * v) - b * v - c * v - d * v - e * v - f * v - t * v
  {
  }

  /** The net flux the correction takes through the six faces. */
  function Balance(p: Case, c: Index, x: seq<real>): real
    requires p.Valid() && p.IsCell(c) && |x| == p.Dim().Size()
  {
    CorrectionCoefAt(p, c, 0) * Slope(p, c, 0, x) + CorrectionCoefAt(p, c, 1) * Slope(p, c, 1, x) +
    CorrectionCoefAt(p, c, 2) * Slope(p, c, 2, x) + CorrectionCoefAt(p, c, 3) * Slope(p, c, 3, x) +
    CorrectionCoefAt(p, c, 4) * Slope(p, c, 4, x) + CorrectionCoefAt(p, c, 5) * Slope(p, c, 5, x)
  }

  lemma AxisChange(p: Case, k: nat, c: Index, u: seq<real>, u': seq<real>, x: seq<real>)
    requires p.Valid() && k < 3 && p.IsCell(c) && |u| == |u'| == |x| == p.Dim().Size()
    requires Corrected(p, k, u, u', x)
    ensures AxisDivergence(p, k, c, u') ==
            AxisDivergence(p, k, c, u) -
            (CorrectionCoefAt(p, c, 2 * k) * Slope(p, c, 2 * k, x) +
             CorrectionCoefAt(p, c, 2 * k + 1) * Slope(p, c, 2 * k + 1, x)) * p.dt
  {
    hide FaceVelocity, CorrectionCoef, Corrected, At, Addr;
    FaceChange(p, k, c, u, u', x);
    FaceChange(p, k, Next(c, k), u, u', x);
    AxisRing(FaceVelocity(p, k, Next(c, k), u'), FaceVelocity(p, k, c, u'), FaceVelocity(p, k, Next(c, k), u),
             FaceVelocity(p, k, c, u), p.di[k], CorrectionCoef(p, k, Next(c, k)), CorrectionCoef(p, k, c),
             Jump(p, k, Next(c, k), x), Jump(p, k, c, x), p.dt);
  }

  lemma AxisRing(up': real, lo': real, up: real, lo: real, d: real, cu: real, cl: real, ju: real, jl: real, dt: real)
    requires up' * d == up * d - cu * ju * dt && lo' * d == lo * d - cl * jl * dt
    ensures (up' - lo') * d == (up - lo) * d - (cl * -jl + cu * ju) * dt
  {
    assert (up' - lo') * d == up' * d - lo' * d;
    assert (up - lo) * d == up * d - lo * d;
    assert (cl * -jl + cu * ju) * dt == -(cl * jl * dt) + cu * ju * dt;
  }

  ghost predicate Velocities(p: Case, vel: seq<seq<real>>)
    requires p.Valid()
  {
    |vel| == 3 && forall k | 0 <= k < 3 :: |vel[k]| == p.Dim().Size()
  }

  /** vel' is vel after vel_correction with pressure x. */
  ghost predicate AllCorrected(p: Case, vel: seq<seq<real>>, vel': seq<seq<real>>, x: seq<real>)
    requires p.Valid() && Velocities(p, vel) && Velocities(p, vel') && |x| == p.Dim().Size()
  {
    forall k | 0 <= k < 3 :: Corrected(p, k, vel[k], vel'[k], x)
  }

  /** The divergence changes by the balance of the corrected fluxes. */
  lemma DivergenceChange(p: Case, c: Index, vel: seq<seq<real>>, vel': seq<seq<real>>, x: seq<real>)
    requires p.Valid() && p.IsCell(c) && Velocities(p, vel) && Velocities(p, vel') && |x| == p.Dim().Size()
    requires AllCorrected(p, vel, vel', x)
    ensures DivergenceAt(p, c, vel') == DivergenceAt(p, c, vel) - Balance(p, c, x)
  {
    hide AxisDivergence, Corrected, CorrectionCoefAt, Slope;
    AxisChange(p, 0, c, vel[0], vel'[0], x);
    AxisChange(p, 1, c, vel[1], vel'[1], x);
    AxisChange(p, 2, c, vel[2], vel'[2], x);
    TimeRing(AxisDivergence(p, 2, c, vel[2]), AxisDivergence(p, 1, c, vel[1]), AxisDivergence(p, 0, c, vel[0]),
             CorrectionCoefAt(p, c, 4) * Slope(p, c, 4, x) + CorrectionCoefAt(p, c, 5) * Slope(p, c, 5, x),
             CorrectionCoefAt(p, c, 2) * Slope(p, c, 2, x) + CorrectionCoefAt(p, c, 3) * Slope(p, c, 3, x),
             CorrectionCoefAt(p, c, 0) * Slope(p, c, 0, x) + CorrectionCoefAt(p, c, 1) * Slope(p, c, 1, x), p.dt);
  }

  lemma TimeRing(a: real, b: real, c: real, x: real, y: real, z: real, dt: real)
    requires dt != 0.0
    ensures ((a - x * dt) + (b - y * dt) + (c - z * dt)) * (1.0 / dt) == (a + b + c) * (1.0 / dt) - (x + y + z)
  {
    var i := 1.0 / dt;
    assert dt * i == 1.0;
    assert x * dt * i == x * (dt * i) && y * dt * i == y * (dt * i) && z * dt * i == z * (dt * i);
    assert ((a - x * dt) + (b - y * dt) + (c - z * dt)) * i == (a + b + c) * i - x * dt * i - y * dt * i - z * dt * i;
  }

  /**
   The exact residual of the projection, for any pressure field and any mix of walls, outlets, immersed
   inlets and porosity: the new divergence is what the row misses, minus the shift, minus the defects.
   */
  lemma ProjectionResidual(p: Case, c: Index, vel: seq<seq<real>>, vel': seq<seq<real>>, x: seq<real>)
    requires p.Valid() && p.IsCell(c) && Velocities(p, vel) && Velocities(p, vel') && |x| == p.Dim().Size()
    requires AllCorrected(p, vel, vel', x) && GhostsFilled(p, x, c)
    ensures DivergenceAt(p, c, vel') ==
            (DivergenceAt(p, c, vel) - Row(p, c, x)) - TINY * CellValue(p, c, x) - Defects(p, c, x)
  {
    hide DivergenceAt, Row, Balance, Defects;
    DivergenceChange(p, c, vel, vel', x);
    RowIsBalance(p, c, x);
  }

  /**
   The face never has a defect.  It carries an inlet, or its spacing counts for nothing; otherwise both
   porosity factors agree, unless it is a wall that is no outlet; and an outlet is held at pressure 0
   or has no coefficient in the matrix.
   */
  predicate Clean(p: Case, c: Index, dir: nat)
    requires p.Valid() && p.IsCell(c) && dir < 6
  {
    FaceOfIsFace(p.g, c, dir);
    var k, f := dir / 2, FaceOf(c, dir);
    || Inlet(p, k, f).Some? || p.di[k] == 0.0
    || (if !AtWall(p, c, dir) then MatrixEps(p, k, f) == FaceEps(p, k, f)
        else match p.wall(dir, c)
             case NotOut => true
             case Out(NeumannPressure) => MatrixEps(p, k, f) == 0.0
             case Out(ConstPressure(value)) =>
               MatrixEps(p, k, f) == FaceEps(p, k, f) && (value == 0.0 || MatrixEps(p, k, f) == 0.0))
  }

  /** Inlet or no spacing: neither coefficient counts. */
  lemma Coefficients(p: Case, c: Index, dir: nat)
    requires p.Valid() && p.IsCell(c) && dir < 6
    ensures p.IsFace(dir / 2, FaceOf(c, dir))
    ensures var k, f := dir / 2, FaceOf(c, dir);
            var none := Inlet(p, k, f).Some? || p.di[k] == 0.0;
            && (CoefAt(p, c, dir) == 0.0 <==> none || MatrixEps(p, k, f) == 0.0)
            && (CorrectionCoefAt(p, c, dir) == CoefAt(p, c, dir) <==> none || MatrixEps(p, k, f) == FaceEps(p, k, f))
  {
    FaceOfIsFace(p.g, c, dir);
    hide Inlet, MatrixEps, FaceEps, DensitySum, Mobility, AtWall, Dims.Size, CoefAt, CorrectionCoefAt;
    var k, f := dir / 2, FaceOf(c, dir);
    var e, e', m := MatrixEps(p, k, f), FaceEps(p, k, f), Mobility(DensitySum(p, k, f), p.di[k]);
    MobilityZero(DensitySum(p, k, f), p.di[k], m);
    SameProduct(e, e', m, e * m, e' * m);
    CoefficientsAre(p, c, dir);
  }

  lemma CoefficientsAre(p: Case, c: Index, dir: nat)
    requires p.Valid() && p.IsCell(c) && dir < 6
    ensures p.IsFace(dir / 2, FaceOf(c, dir))
    ensures var k, f := dir / 2, FaceOf(c, dir);
            var m := Mobility(DensitySum(p, k, f), p.di[k]);
            && CoefAt(p, c, dir) == (if Inlet(p, k, f).Some? then 0.0 else MatrixEps(p, k, f) * m)
            && CorrectionCoefAt(p, c, dir) == (if Inlet(p, k, f).Some? then 0.0 else FaceEps(p, k, f) * m)
  {
    FaceOfIsFace(p.g, c, dir);
    hide Inlet, MatrixEps, FaceEps, DensitySum, Mobility, AtWall, Dims.Size;
  }

  lemma MobilityZero(s: real, d: real, m: real)
    requires s > 0.0 && m == Mobility(s, d)
    ensures m == 0.0 <==> d == 0.0
  {
    var q, e := 2.0 / s, d * d;
    if d != 0.0 {
      NoZero(d, d, e);
      NoZero(q, e, m);
    }
  }

  lemma NoZero(a: real, b: real, c: real)
    requires a != 0.0 && b != 0.0 && c == a * b
    ensures c != 0.0
  {
    assert c / b == a;
  }

  lemma SameProduct(a: real, b: real, m: real, am: real, bm: real)
    requires am == a * m && bm == b * m
    ensures am == 0.0 <==> a == 0.0 || m == 0.0
    ensures bm == am <==> a == b || m == 0.0
  {
    if m != 0.0 {
      if a != 0.0 {
        NoZero(a, m, am);
      }
      if a != b {
        NoZero(b - a, m, (b - a) * m);
        assert (b - a) * m == bm - am;
      }
    }
  }

  lemma CleanHasNoDefect(p: Case, c: Index, dir: nat, x: seq<real>)
    requires p.Valid() && p.IsCell(c) && dir < 6 && |x| == p.Dim().Size() && GhostsFilled(p, x, c) && Clean(p, c, dir)
    ensures Defect(p, c, dir, x) == 0.0
  {
    hide Inlet, MatrixEps, FaceEps, NeighbourValue, CellValue, CoefAt, CorrectionCoefAt;
    Coefficients(p, c, dir);
    DefectRing(CoefAt(p, c, dir), CorrectionCoefAt(p, c, dir), NeighbourValue(p, c, dir, x), CellValue(p, c, x));
  }

  lemma DefectRing(k: real, m: real, nb: real, v: real)
    ensures m == k ==> (m - k) * (nb - v) == 0.0
    ensures nb == v ==> (m - k) * (nb - v) == 0.0
    ensures k == 0.0 || nb == -v ==> k * (nb + v) == 0.0
  {
  }

  /**
   A field with value v in cell c, w across direction dir where that is a cell, the ghosts that
   belong to it, and 0 elsewhere.
   */
  function Spike(p: Case, c: Index, dir: nat, v: real, w: real): (x: seq<real>)
    requires p.Valid() && p.IsCell(c) && dir < 6
    ensures |x| == p.Dim().Size()
  {
    seq(p.Dim().Size(), (j: nat) requires j < p.Dim().Size() => SpikeAt(p, c, dir, v, w, CellAt(p.Dim(), j)))
  }

  function SpikeAt(p: Case, c: Index, dir: nat, v: real, w: real, b: Index): real
    requires p.Valid() && p.IsCell(c) && dir < 6
  {
    if b == c then v
    else if b == Across(c, 0) then SpikeBeside(p, c, dir, v, w, 0)
    else if b == Across(c, 1) then SpikeBeside(p, c, dir, v, w, 1)
    else if b == Across(c, 2) then SpikeBeside(p, c, dir, v, w, 2)
    else if b == Across(c, 3) then SpikeBeside(p, c, dir, v, w, 3)
    else if b == Across(c, 4) then SpikeBeside(p, c, dir, v, w, 4)
    else if b == Across(c, 5) then SpikeBeside(p, c, dir, v, w, 5)
    else 0.0
  }

  function SpikeBeside(p: Case, c: Index, dir: nat, v: real, w: real, at: nat): real
    requires p.Valid() && p.IsCell(c) && dir < 6 && at < 6
  {
    if !AtWall(p, c, at) then (if at == dir then w else 0.0)
    else match p.wall(at, c)
         case Out(ConstPressure(value)) => 2.0 * value - v
         case Out(NeumannPressure) => v
         case NotOut => v
  }

  lemma SpikeValues(p: Case, c: Index, dir: nat, v: real, w: real)
    requires p.Valid() && p.IsCell(c) && dir < 6
    ensures var x := Spike(p, c, dir, v, w);
            && CellValue(p, c, x) == v && GhostsFilled(p, x, c)
            && NeighbourValue(p, c, dir, x) == SpikeBeside(p, c, dir, v, w, dir)
  {
    hide SpikeBeside, Spike, NeighbourValue, CellValue, AtWall;
    SpikeCell(p, c, dir, v, w);
    forall at: nat | at < 6
      ensures NeighbourValue(p, c, at, Spike(p, c, dir, v, w)) == SpikeBeside(p, c, dir, v, w, at)
    {
      SpikeNeighbour(p, c, dir, v, w, at);
    }
    SpikeGhosts(p, c, dir, v, w);
  }

  lemma SpikeCell(p: Case, c: Index, dir: nat, v: real, w: real)
    requires p.Valid() && p.IsCell(c) && dir < 6
    ensures CellValue(p, c, Spike(p, c, dir, v, w)) == v
  {
    hide SpikeBeside, Spike, At, Dims.Size;
    SpikeRead(p, c, dir, v, w, c);
  }

  lemma SpikeNeighbour(p: Case, c: Index, dir: nat, v: real, w: real, at: nat)
    requires p.Valid() && p.IsCell(c) && dir < 6 && at < 6
    ensures NeighbourValue(p, c, at, Spike(p, c, dir, v, w)) == SpikeBeside(p, c, dir, v, w, at)
  {
    hide SpikeBeside, Spike, At, Dims.Size;
    FaceOfIsFace(p.g, c, at);
    SpikeRead(p, c, dir, v, w, Across(c, at));
  }

  lemma SpikeRead(p: Case, c: Index, dir: nat, v: real, w: real, b: Index)
    requires p.Valid() && p.IsCell(c) && dir < 6 && p.Dim().Has(b.x, b.y, b.z)
    ensures At(Spike(p, c, dir, v, w), p.Dim(), b) == SpikeAt(p, c, dir, v, w, b)
  {
    hide SpikeAt, Addr, Dims.Size;
    StructIndexOfAddr(p.Dim(), b.x, b.y, b.z);
  }

  lemma SpikeGhosts(p: Case, c: Index, dir: nat, v: real, w: real)
    requires p.Valid() && p.IsCell(c) && dir < 6
    ensures forall at: nat | at < 6 && AtWall(p, c, at) ::
              SpikeBeside(p, c, dir, v, w, at) ==
              match p.wall(at, c)
              case Out(ConstPressure(value)) => 2.0 * value - v
              case Out(NeumannPressure) => v
              case NotOut => v
  {
  }

  /** A face that is not clean has a defect for some pressure whose ghosts are filled as bcp fills them. */
  lemma UncleanHasDefect(p: Case, c: Index, dir: nat) returns (x: seq<real>)
    requires p.Valid() && p.IsCell(c) && dir < 6 && !Clean(p, c, dir)
    ensures |x| == p.Dim().Size() && GhostsFilled(p, x, c) && Defect(p, c, dir, x) != 0.0
  {
    hide Inlet, MatrixEps, FaceEps, NeighbourValue, CellValue, CoefAt, CorrectionCoefAt, GhostsFilled, Spike;
    Coefficients(p, c, dir);
    var k, m := CoefAt(p, c, dir), CorrectionCoefAt(p, c, dir);
    var v: real := 1.0;
    if AtWall(p, c, dir) && p.wall(dir, c).Out? && p.wall(dir, c).p.ConstPressure? {
      v := Witness(k, m, p.wall(dir, c).p.value);
    }
    SpikeValues(p, c, dir, v, 0.0);
    x := Spike(p, c, dir, v, 0.0);
  }

  /** A cell value for which an outlet held at pressure q has a defect. */
  lemma Witness(k: real, m: real, q: real) returns (v: real)
    requires m != k || (q != 0.0 && k != 0.0)
    ensures k * (2.0 * q - v + v) + (m - k) * (2.0 * q - v - v) != 0.0
  {
    if m == k {
      NoZero(k, q, k * q);
      v := 0.0;
    } else {
      var t := (1.0 - 2.0 * (k * q)) / (m - k);
      v := q - t / 2.0;
      assert 2.0 * q - v - v == t;
      assert (m - k) * t == 1.0 - 2.0 * (k * q);
    }
  }

  /** So clean faces are exactly those that never have a defect. */
  lemma CleanExactly(p: Case, c: Index, dir: nat)
    requires p.Valid() && p.IsCell(c) && dir < 6
    ensures Clean(p, c, dir) <==>
            forall x: seq<real> | |x| == p.Dim().Size() && GhostsFilled(p, x, c) :: Defect(p, c, dir, x) == 0.0
  {
    hide GhostsFilled, Defect, Clean;
    if Clean(p, c, dir) {
      forall x: seq<real> | |x| == p.Dim().Size() && GhostsFilled(p, x, c)
        ensures Defect(p, c, dir, x) == 0.0
      {
        CleanHasNoDefect(p, c, dir, x);
      }
    } else {
      var x := UncleanHasDefect(p, c, dir);
    }
  }

  /** The projection does its work: with A x = div solved exactly, div becomes -1e-10 x. */
  lemma ProjectionClearsDivergence(p: Case, c: Index, vel: seq<seq<real>>, vel': seq<seq<real>>, x: seq<real>)
    requires p.Valid() && p.IsCell(c) && Velocities(p, vel) && Velocities(p, vel') && |x| == p.Dim().Size()
    requires AllCorrected(p, vel, vel', x) && GhostsFilled(p, x, c)
    requires forall dir: nat | dir < 6 :: Clean(p, c, dir)
    requires Row(p, c, x) == DivergenceAt(p, c, vel)
    ensures DivergenceAt(p, c, vel') == -TINY * CellValue(p, c, x)
  {
    hide DivergenceAt, Row, Clean, Defect, CellValue;
    ProjectionResidual(p, c, vel, vel', x);
    forall dir: nat | dir < 6
      ensures Defect(p, c, dir, x) == 0.0
    {
      CleanHasNoDefect(p, c, dir, x);
    }
  }
}
