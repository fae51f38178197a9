/**
 The data that divergence, vel_correction and make_matrix_array share (jupiter/divergence_free.c,
 jupiter/ccse_poisson.c) and the quantities they compute from it, face by face.
 Axes and directions are numbered as in Ranks.
 */
module Flow {
  import opened Layout
  import opened Slab
  import opened Ranks
  import opened Frames

  /** struct surface_boundary_data: the immersed surface on a face. */
  datatype Surface = Surface(inlet: bool, normal: bool, vel: real)

  /** fluid_boundary_data at a cell of a physical wall. */
  datatype FluidBoundary = Out(p: OutPressure) | NotOut

  datatype OutPressure = NeumannPressure | ConstPressure(value: real)

  const TINY: real := 0.0000000001

  datatype Case = Case(
    g: Frame, di: seq<real>, dt: real,
    porous: bool, dens: seq<real>, eps: seq<real>,
    surface: Option<seq<Option<Surface>>>, norm: seq<seq<real>>,
    wall: (nat, Index) -> FluidBoundary
  ) {
    function Dim(): Dims
      requires g.Sized()
    {
      g.Dim()
    }

    /** Positive density and arrays of the right size. */
    ghost predicate Valid() {
      && g.Sized() && dt != 0.0 && |di| == 3
      && |dens| == |eps| == Dim().Size()
      && (forall j | 0 <= j < |dens| :: dens[j] > 0.0)
      && (surface.Some? ==> |surface.value| == 3 * Dim().Size())
      && |norm| == 3 && (forall k | 0 <= k < 3 :: |norm[k]| == 3 * Dim().Size())
    }

    predicate IsCell(c: Index) {
      g.IsCell(c)
    }

    predicate IsFace(k: nat, c: Index) {
      g.IsFace(k, c)
    }
  }

  lemma FaceCells(p: Case, k: nat, c: Index)
    requires p.Valid() && p.IsFace(k, c)
    ensures p.Dim().Has(c.x, c.y, c.z)
    ensures var b := Prev(c, k); p.Dim().Has(b.x, b.y, b.z)
  {
    FrameFace(p.g, k, c);
  }

  function Min(a: real, b: real): real { if a < b then a else b }

  /** surface_bnd[3 * j + axis], where the x axis is 0 there and 2 here. */
  function SurfaceSlot(p: Case, k: nat, c: Index): int
    requires p.g.Sized() && k < 3
  {
    3 * Addr(p.Dim(), c.x, c.y, c.z) + 2 - k
  }

  /** The velocity an immersed inlet prescribes on the lower face of c, if there is one. */
  function Inlet(p: Case, k: nat, c: Index): Option<real>
    requires p.Valid() && p.IsFace(k, c)
  {
    FaceCells(p, k, c);
    if p.surface.None? then None
    else
      var s := p.surface.value[SurfaceSlot(p, k, c)];
      if s.None? || !s.value.inlet || !s.value.normal then None
      else Some(s.value.vel * p.norm[2 - k][SurfaceSlot(p, k, c)])
  }

  function DensitySum(p: Case, k: nat, c: Index): (s: real)
    requires p.Valid() && p.IsFace(k, c)
    ensures s > 0.0
  {
    FaceCells(p, k, c);
    At(p.dens, p.Dim(), c) + At(p.dens, p.Dim(), Prev(c, k))
  }

  /** A face's coefficient before porosity: 2 over the density sum s, times the inverse spacing d squared. */
  function Mobility(s: real, d: real): (m: real)
    requires s > 0.0
    ensures m >= 0.0
  {
    NonNegative(d, s);
    2.0 / s * (d * d)
  }

  lemma NonNegative(d: real, s: real)
    requires s > 0.0
    ensures 2.0 / s * (d * d) >= 0.0
  {
    assert d * d >= 0.0;
    assert 2.0 / s >= 0.0;
  }

  /** The porosity factor of make_matrix_array ... */
  function MatrixEps(p: Case, k: nat, c: Index): real
    requires p.Valid() && p.IsFace(k, c)
  {
    FaceCells(p, k, c);
    if p.porous then Min(At(p.eps, p.Dim(), c), At(p.eps, p.Dim(), Prev(c, k))) else 1.0
  }

  /** ... and the one of vel_correction. */
  function CorrectionEps(here: real, there: real): real {
    var c := if here <= 0.0 then there else here;
    var n := if here <= 0.0 then there else if there <= 0.0 then here else there;
    var e := Min(c, n);
    if e <= 0.0 then 1.0 else e
  }

  function FaceEps(p: Case, k: nat, c: Index): real
    requires p.Valid() && p.IsFace(k, c)
  {
    FaceCells(p, k, c);
    CorrectionEps(At(p.eps, p.Dim(), c), At(p.eps, p.Dim(), Prev(c, k)))
  }

  /** Exactly when the two agree. */
  lemma EpsAgreeExactly(p: Case, k: nat, c: Index)
    requires p.Valid() && p.IsFace(k, c)
    ensures p.Dim().Has(c.x, c.y, c.z)
    ensures var b := Prev(c, k); p.Dim().Has(b.x, b.y, b.z)
    ensures var here, there := At(p.eps, p.Dim(), c), At(p.eps, p.Dim(), Prev(c, k));
            MatrixEps(p, k, c) == FaceEps(p, k, c) <==>
            if p.porous then here > 0.0 && there > 0.0
            else if here > 0.0 && there > 0.0 then Min(here, there) == 1.0
            else (here <= 0.0 || here == 1.0) && (there <= 0.0 || there == 1.0)
  {
    FaceCells(p, k, c);
  }

  /** The coefficient of the lower face of c on axis k: none where an inlet prescribes the velocity. */
  function Coef(p: Case, k: nat, c: Index): real
    requires p.Valid() && p.IsFace(k, c)
  {
    if Inlet(p, k, c).Some? then 0.0 else MatrixEps(p, k, c) * Mobility(DensitySum(p, k, c), p.di[k])
  }

  /** The same with the porosity factor of vel_correction. */
  function CorrectionCoef(p: Case, k: nat, c: Index): real
    requires p.Valid() && p.IsFace(k, c)
  {
    if Inlet(p, k, c).Some? then 0.0 else FaceEps(p, k, c) * Mobility(DensitySum(p, k, c), p.di[k])
  }

  /** c touches a physical wall, or an outflow part of one, in direction dir. */
  predicate AtWall(p: Case, c: Index, dir: nat)
    requires p.g.Sized() && dir < 6
  {
    p.g.AtWall(c, dir)
  }

  predicate AtOut(p: Case, c: Index, dir: nat)
    requires p.g.Sized() && dir < 6
  {
    AtWall(p, c, dir) && p.wall(dir, c).Out?
  }

  /** The coefficient of the face of c in direction dir. */
  function CoefAt(p: Case, c: Index, dir: nat): real
    requires p.Valid() && p.IsCell(c) && dir < 6
  {
    FaceOfIsFace(p.g, c, dir);
    Coef(p, dir / 2, FaceOf(c, dir))
  }
}
