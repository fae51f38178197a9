/**
 make_matrix_array_T and its boundary coefficients (jupiter/ccse_poisson.c, 498-640): the temperature
 matrix with its ghost cells eliminated, against the full 7-point stencil with the ghosts that
 bct_calc fills in (jupiter/boundary.c, 2169-2377).
 */
module Thermal {
  import opened Layout
  import opened Slab
  import opened Ranks
  import opened Frames
  import opened Ghosts
  import opened MatrixRows

  /** thermal_boundary_data at a wall cell. */
  datatype ThermalBoundary = Insulation | Isothermal(temperature: real) | Diffusion(limit: real)

  /** What the assembly reads. */
  datatype Heat = Heat(
    g: Frame, di: seq<real>, dti: real, porous: bool, dens: seq<real>, specht: seq<real>, thc: seq<real>,
        sgm: seq<real>,
    wall: (nat, Index) -> ThermalBoundary
  ) {
    function Dim(): Dims
      requires g.Sized()
    {
      g.Dim()
    }

    /** Positive conductivity and arrays of the right size. */
    ghost predicate Valid() {
      && g.Sized() && Reaches(g) && g.stp >= 2 && |di| == 3
      && |dens| == |specht| == |thc| == |sgm| == Dim().Size()
      && forall j | 0 <= j < |thc| :: thc[j] > 0.0
    }
  }

  const TINY_T: real := 0.00000001

  /** The harmonic mean of two conductivities over the squared spacing. */
  function Conductance(a: real, b: real, d: real): real
    requires a > 0.0 && b > 0.0
  {
    MeanIsDefined(a, b);
    2.0 / (1.0 / a + 1.0 / b) * (d * d)
  }

  lemma MeanIsDefined(a: real, b: real)
    requires a > 0.0 && b > 0.0
    ensures 1.0 / a + 1.0 / b > 0.0
  {
    assert 1.0 / a > 0.0 && 1.0 / b > 0.0;
  }

  /** The coefficient of the face of c in direction dir. */
  function C(h: Heat, c: Index, dir: nat): real
    requires h.Valid() && h.g.IsCell(c) && dir < 6
  {
    FaceOfIsFace(h.g, c, dir);
    Conductance(At(h.thc, h.Dim(), c), At(h.thc, h.Dim(), Across(c, dir)), h.di[dir / 2])
  }

  /** The heat stored per step, with the shift. */
  function Storage(h: Heat, c: Index): real
    requires h.Valid() && h.g.IsCell(c)
  {
    (if h.porous then At(h.sgm, h.Dim(), c) * At(h.dens, h.Dim(), c) * At(h.specht, h.Dim(), c) * h.dti
     else At(h.dens, h.Dim(), c) * At(h.specht, h.Dim(), c) * h.dti) + TINY_T
  }

  /** The same condition for the ghosts: bct_calc. */
  function TemperatureRule(fp: ThermalBoundary): Rule {
    match fp
    case Insulation => Mirrored
    case Isothermal(temperature) => Reflected(temperature)
    case Diffusion(limit) => Extrapolated(limit)
  }

  function TemperatureRules(h: Heat): (nat, Index) -> Rule {
    (dir: nat, c: Index) => TemperatureRule(h.wall(dir, c))
  }

  /** The coefficient that stays beside the diagonal, what the face adds to the diagonal, and what it takes from b. */
  function Beside(h: Heat, c: Index, dir: nat): real
    requires h.Valid() && h.g.IsCell(c) && dir < 6
  {
    if h.g.AtWall(c, dir) then 0.0 else C(h, c, dir)
  }

  function OnDiagonal(h: Heat, c: Index, dir: nat): real
    requires h.Valid() && h.g.IsCell(c) && dir < 6
  {
    if !h.g.AtWall(c, dir) then -C(h, c, dir)
    else if h.wall(dir, c).Isothermal? then -2.0 * C(h, c, dir)
    else 0.0
  }

  function FromB(h: Heat, c: Index, dir: nat): real
    requires h.Valid() && h.g.IsCell(c) && dir < 6
  {
    if h.g.AtWall(c, dir) && h.wall(dir, c).Isothermal? then 2.0 * C(h, c, dir) * h.wall(dir, c).temperature else 0.0
  }

  function TDiagonal(h: Heat, c: Index): real
    requires h.Valid() && h.g.IsCell(c)
  {
    OnDiagonal(h, c, 0) + OnDiagonal(h, c, 1) + OnDiagonal(h, c, 2) +
    OnDiagonal(h, c, 3) + OnDiagonal(h, c, 4) + OnDiagonal(h, c, 5) - Storage(h, c)
  }

  function Shift(h: Heat, c: Index): real
    requires h.Valid() && h.g.IsCell(c)
  {
    FromB(h, c, 0) + FromB(h, c, 1) + FromB(h, c, 2) + FromB(h, c, 3) + FromB(h, c, 4) + FromB(h, c, 5)
  }

  function TEntry(h: Heat, c: Index, q: nat): real
    requires h.Valid() && h.g.IsCell(c) && q < 7
  {
    if q == 3 then TDiagonal(h, c) else Beside(h, c, EntryDir(q))
  }

  ghost function TEntries(h: Heat): Entries
    requires h.Valid()
  {
    (c: Index, q: nat) => if h.g.IsCell(c) && q < 7 then TEntry(h, c, q) else 0.0
  }

  function Value(h: Heat, c: Index, x: seq<real>): real
    requires h.Valid() && h.g.IsCell(c) && |x| == h.Dim().Size()
  {
    At(x, h.Dim(), c)
  }

  function Beyond(h: Heat, c: Index, dir: nat, x: seq<real>): real
    requires h.Valid() && h.g.IsCell(c) && dir < 6 && |x| == h.Dim().Size()
  {
    FaceOfIsFace(h.g, c, dir);
    At(x, h.Dim(), Across(c, dir))
  }

  function BesideTerm(h: Heat, c: Index, dir: nat, x: seq<real>): real
    requires h.Valid() && h.g.IsCell(c) && dir < 6 && |x| == h.Dim().Size()
  {
    Beside(h, c, dir) * Beyond(h, c, dir, x)
  }

  /** One direction's share of the reduced row applied to x ... */
  function ReducedPart(h: Heat, c: Index, dir: nat, x: seq<real>): real
    requires h.Valid() && h.g.IsCell(c) && dir < 6 && |x| == h.Dim().Size()
  {
    BesideTerm(h, c, dir, x) + OnDiagonal(h, c, dir) * Value(h, c, x)
  }

  /** ... and of the full stencil. */
  function FullPart(h: Heat, c: Index, dir: nat, x: seq<real>): real
    requires h.Valid() && h.g.IsCell(c) && dir < 6 && |x| == h.Dim().Size()
  {
    C(h, c, dir) * (Beyond(h, c, dir, x) - Value(h, c, x))
  }

  /** The reduced row applied to x. */
  function Reduced(h: Heat, c: Index, x: seq<real>): real
    requires h.Valid() && h.g.IsCell(c) && |x| == h.Dim().Size()
  {
    BesideTerm(h, c, 0, x) + BesideTerm(h, c, 1, x) + BesideTerm(h, c, 2, x) +
    BesideTerm(h, c, 3, x) + BesideTerm(h, c, 4, x) + BesideTerm(h, c, 5, x) +
    TDiagonal(h, c) * Value(h, c, x)
  }

  /** The full stencil applied to x, ghosts included. */
  function Full(h: Heat, c: Index, x: seq<real>): real
    requires h.Valid() && h.g.IsCell(c) && |x| == h.Dim().Size()
  {
    FullPart(h, c, 0, x) + FullPart(h, c, 1, x) + FullPart(h, c, 2, x) +
    FullPart(h, c, 3, x) + FullPart(h, c, 4, x) + FullPart(h, c, 5, x) - Storage(h, c) * Value(h, c, x)
  }

  lemma ReducedIsSum(h: Heat, c: Index, x: seq<real>)
    requires h.Valid() && h.g.IsCell(c) && |x| == h.Dim().Size()
    ensures Reduced(h, c, x) ==
            ReducedPart(h, c, 0, x) + ReducedPart(h, c, 1, x) + ReducedPart(h, c, 2, x) +
            ReducedPart(h, c, 3, x) + ReducedPart(h, c, 4, x) + ReducedPart(h, c, 5, x) - Storage(h, c) * Value(h, c, x)
  {
    hide BesideTerm, OnDiagonal, Value, Storage;
    DiagonalShares(OnDiagonal(h, c, 0), OnDiagonal(h, c, 1), OnDiagonal(h, c, 2), OnDiagonal(h, c, 3),
        OnDiagonal(h, c, 4),
                   OnDiagonal(h, c, 5), Storage(h, c), Value(h, c, x));
  }

  lemma DiagonalShares(a: real, b: real, c: real, d: real, e: real, f: real, s: real, v: real)
    ensures (a + b + c + d + e + f - s) * v == a * v + b * v + c * v + d * v + e * v + f * v - s * v
  {
  }

  /** What the elimination gets wrong at a wall: nothing, but for DIFFUSION. */
  function DiffusionDefect(h: Heat, c: Index, dir: nat, x: seq<real>): real
    requires h.Valid() && h.g.IsCell(c) && dir < 6 && |x| == h.Dim().Size()
  {
    if h.g.AtWall(c, dir) && h.wall(dir, c).Diffusion? then FullPart(h, c, dir, x) else 0.0
  }

  /** One direction, with the ghost bct_calc leaves there. */
  lemma PartAgrees(h: Heat, c: Index, dir: nat, x: seq<real>)
    requires h.Valid() && h.g.IsCell(c) && dir < 6 && |x| == h.Dim().Size()
    requires h.g.AtWall(c, dir) ==>
               match h.wall(dir, c)
               case Insulation => Beyond(h, c, dir, x) == Value(h, c, x)
               case Isothermal(t) => Beyond(h, c, dir, x) == 2.0 * t - Value(h, c, x)
               case Diffusion(_) => true
    ensures FullPart(h, c, dir, x) == ReducedPart(h, c, dir, x) + FromB(h, c, dir) + DiffusionDefect(h, c, dir, x)
  {
    hide C, Beyond, Value;
    var a, v, nb := C(h, c, dir), Value(h, c, x), Beyond(h, c, dir, x);
    if !h.g.AtWall(c, dir) {
      PartRing(a, v, nb);
    } else {
      match h.wall(dir, c) {
        case Insulation => InsulationRing(a, v, nb);
        case Isothermal(t) => IsothermalRing(a, v, nb, t);
        case Diffusion(_) => DiffusionRing(v, nb);
      }
    }
  }

  lemma PartRing(a: real, v: real, nb: real)
    ensures a * (nb - v) == a * nb + (-a) * v
  {
  }

  lemma InsulationRing(a: real, v: real, nb: real)
    requires nb == v
    ensures a * (nb - v) == 0.0 * nb + 0.0 * v
  {
  }

  lemma DiffusionRing(v: real, nb: real)
    ensures 0.0 * nb + 0.0 * v == 0.0
  {
  }

  lemma IsothermalRing(a: real, v: real, nb: real, t: real)
    requires nb == 2.0 * t - v
    ensures a * (nb - v) == 0.0 * nb + (-2.0 * a) * v + 2.0 * a * t
  {
    var q := a * v;
    assert a * (2.0 * t - v - v) == 2.0 * a * t - 2.0 * q;
    assert (-2.0 * a) * v == -2.0 * q;
  }

  /** bct_calc and its loops leave those ghosts, whichever of the six sides are walls. */
  lemma BctFills(h: Heat, x: seq<real>, c: Index, dir: nat)
    requires h.Valid() && |x| == h.Dim().Size() && h.g.IsCell(c) && dir < 6
    requires h.g.AtWall(c, dir) && !h.wall(dir, c).Diffusion?
    ensures var y := FilledSides(h.g, TemperatureRules(h), x, 6);
            && Value(h, c, y) == Value(h, c, x)
            && Beyond(h, c, dir, y) ==
               if h.wall(dir, c).Isothermal? then 2.0 * h.wall(dir, c).temperature - Value(h, c, x) else Value(h, c, x)
  {
    hide At, FilledSides;
    CellsKept(h.g, TemperatureRules(h), x, 6, c);
    FirstGhost(h.g, TemperatureRules(h), x, 6, dir, c);
  }

  /** The reduced row sees no ghost of a wall, so filling the ghosts does not change it. */
  lemma BctKeepsReduced(h: Heat, x: seq<real>, c: Index)
    requires h.Valid() && |x| == h.Dim().Size() && h.g.IsCell(c)
    ensures Reduced(h, c, FilledSides(h.g, TemperatureRules(h), x, 6)) == Reduced(h, c, x)
  {
    hide At, FilledSides, BesideTerm, TDiagonal, Frame.AtWall, Dims.Size;
    var y := FilledSides(h.g, TemperatureRules(h), x, 6);
    CellsKept(h.g, TemperatureRules(h), x, 6, c);
    BesideKept(h, x, c, 0);
    BesideKept(h, x, c, 1);
    BesideKept(h, x, c, 2);
    BesideKept(h, x, c, 3);
    BesideKept(h, x, c, 4);
    BesideKept(h, x, c, 5);
  }

  lemma BesideKept(h: Heat, x: seq<real>, c: Index, dir: nat)
    requires h.Valid() && |x| == h.Dim().Size() && h.g.IsCell(c) && dir < 6
    ensures BesideTerm(h, c, dir, FilledSides(h.g, TemperatureRules(h), x, 6)) == BesideTerm(h, c, dir, x)
  {
    hide FilledSides, Beyond, BesideTerm, Frame.AtWall;
    var y := FilledSides(h.g, TemperatureRules(h), x, 6);
    if h.g.AtWall(c, dir) {
      NothingBeside(h, c, dir, x);
      NothingBeside(h, c, dir, y);
    } else {
      BeyondKept(h, x, c, dir);
      SameBeside(h, c, dir, x, y);
    }
  }

  lemma NothingBeside(h: Heat, c: Index, dir: nat, x: seq<real>)
    requires h.Valid() && |x| == h.Dim().Size() && h.g.IsCell(c) && dir < 6 && h.g.AtWall(c, dir)
    ensures BesideTerm(h, c, dir, x) == 0.0
  {
    hide Beyond, C, Frame.AtWall;
    assert Beside(h, c, dir) == 0.0;
  }

  lemma SameBeside(h: Heat, c: Index, dir: nat, x: seq<real>, y: seq<real>)
    requires h.Valid() && |x| == |y| == h.Dim().Size() && h.g.IsCell(c) && dir < 6
    requires Beyond(h, c, dir, y) == Beyond(h, c, dir, x)
    ensures BesideTerm(h, c, dir, y) == BesideTerm(h, c, dir, x)
  {
    hide Beyond, Beside;
  }

  lemma BeyondKept(h: Heat, x: seq<real>, c: Index, dir: nat)
    requires h.Valid() && |x| == h.Dim().Size() && h.g.IsCell(c) && dir < 6 && !h.g.AtWall(c, dir)
    ensures Beyond(h, c, dir, FilledSides(h.g, TemperatureRules(h), x, 6)) == Beyond(h, c, dir, x)
  {
    hide At, FilledSides;
    FaceOfIsFace(h.g, c, dir);
    forall dir': nat | dir' < 6 && h.g.nrk[dir'] == -1
      ensures !OnSide(h.g, dir', Across(c, dir))
    {
      NoGhostAcross(h.g, c, dir, dir');
    }
    OthersKept(h.g, TemperatureRules(h), x, 6, Across(c, dir));
  }

  /** The exact difference between the reduced system and the stencil with its ghosts filled. */
  lemma EliminationResidual(h: Heat, x: seq<real>, c: Index)
    requires h.Valid() && |x| == h.Dim().Size() && h.g.IsCell(c)
    ensures var y := FilledSides(h.g, TemperatureRules(h), x, 6);
            Full(h, c, y) == Reduced(h, c, x) + Shift(h, c) +
              DiffusionDefect(h, c, 0, y) + DiffusionDefect(h, c, 1, y) + DiffusionDefect(h, c, 2, y) +
              DiffusionDefect(h, c, 3, y) + DiffusionDefect(h, c, 4, y) + DiffusionDefect(h, c, 5, y)
  {
    hide At, FilledSides, Beyond, Value, FullPart, ReducedPart, FromB, DiffusionDefect, Reduced, Storage;
    var y := FilledSides(h.g, TemperatureRules(h), x, 6);
    BctKeepsReduced(h, x, c);
    ReducedIsSum(h, c, y);
    forall dir: nat | dir < 6
      ensures FullPart(h, c, dir, y) == ReducedPart(h, c, dir, y) + FromB(h, c, dir) + DiffusionDefect(h, c, dir, y)
    {
      if h.g.AtWall(c, dir) && !h.wall(dir, c).Diffusion? {
        BctFills(h, x, c, dir);
      }
      PartAgrees(h, c, dir, y);
    }
  }

  /**
   Ghost elimination is exact: without DIFFUSION walls x solves the reduced row exactly when the full
   stencil, ghosts filled by bct_calc, takes the original right-hand side.
   */
  lemma EliminationIsExact(h: Heat, x: seq<real>, c: Index, b: real)
    requires h.Valid() && |x| == h.Dim().Size() && h.g.IsCell(c)
    requires forall dir: nat | dir < 6 && h.g.AtWall(c, dir) :: !h.wall(dir, c).Diffusion?
    ensures Reduced(h, c, x) == b - Shift(h, c) <==> Full(h, c, FilledSides(h.g, TemperatureRules(h), x, 6)) == b
  {
    hide FilledSides, Full, Reduced, Shift, FullPart;
    EliminationResidual(h, x, c);
  }

  /** boundary_matrix_coeff_T: the new diagonal and what is left of b. */
  function BoundaryCoefT(fp: ThermalBoundary, cc: real, cn: real, b: real): (real, real) {
    if fp.Isothermal? then (cc - cn, b - 2.0 * cn * fp.temperature) else (cc + cn, b)
  }

  /** One wall block of the assembly. */
  method CloseWallT(h: Heat, dir: nat, col: int, cc: real, cn: real, b: real, c: Index)
    returns (col': int, cc': real, b': real)
    requires h.Valid() && dir < 6 && h.g.IsCell(c) && cn == C(h, c, dir)
    ensures col' == if h.g.AtWall(c, dir) then -1 else col
    ensures cc' == cc + cn + OnDiagonal(h, c, dir) && b' == b - FromB(h, c, dir)
  {
    hide C;
    col', cc', b' := col, cc, b;
    if h.g.AtWall(c, dir) {
      col' := -1;
      var r := BoundaryCoefT(h.wall(dir, c), cc, cn, b);
      cc', b' := r.0, r.1;
    }
  }

  /** The coefficient between two positions of the arrays. */
  method FaceCoef(h: Heat, j: int, i: int, dir: nat, ghost c: Index) returns (a: real)
    requires h.Valid() && h.g.IsCell(c) && dir < 6
    requires var o := Across(c, dir); j == Addr(h.Dim(), c.x, c.y, c.z) && i == Addr(h.Dim(), o.x, o.y, o.z)
    ensures a == C(h, c, dir)
  {
    hide Addr;
    FaceOfIsFace(h.g, c, dir);
    MeanIsDefined(h.thc[j], h.thc[i]);
    a := 2.0 / (1.0 / h.thc[j] + 1.0 / h.thc[i]) * (h.di[dir / 2] * h.di[dir / 2]);
  }

  /** The open coefficients of a cell and the diagonal that goes with them. */
  method OpenCoefsT(h: Heat, c: Index) returns (cc: real, cw: real, ce: real, cs: real, cn: real, cb: real, ct: real)
    requires h.Valid() && h.g.IsCell(c)
    ensures cb == C(h, c, 0) && ct == C(h, c, 1) && cs == C(h, c, 2)
    ensures cn == C(h, c, 3) && cw == C(h, c, 4) && ce == C(h, c, 5)
    ensures cc == -(cw + ce + cs + cn + cb + ct + Storage(h, c))
  {
    hide Addr, C;
    var d := h.Dim();
    var mx, mxy := d.mx, d.mx * d.my;
    FaceOfIsFace(h.g, c, 0);
    var j := Addr(d, c.x, c.y, c.z);
    StrideIsStep(d, c, 0);
    StrideIsStep(d, c, 1);
    StrideIsStep(d, c, 2);
    cw := FaceCoef(h, j, j - 1, 4, c);
    ce := FaceCoef(h, j, j + 1, 5, c);
    cs := FaceCoef(h, j, j - mx, 2, c);
    cn := FaceCoef(h, j, j + mx, 3, c);
    cb := FaceCoef(h, j, j - mxy, 0, c);
    ct := FaceCoef(h, j, j + mxy, 1, c);
    if h.porous {
      cc := -(cw + ce + cs + cn + cb + ct + h.sgm[j] * h.dens[j] * h.specht[j] * h.dti + TINY_T);
    } else {
      cc := -(cw + ce + cs + cn + cb + ct + h.dens[j] * h.specht[j] * h.dti + TINY_T);
    }
  }

  /** One row, in the order b, s, w, c, e, n, t, and the new right-hand side. */
  method AssembleRowT(h: Heat, rank: int, jx: nat, jy: nat, jz: nat, b: real) returns (row: seq<real>, b': real)
    requires h.Valid() && RankKnown(h.g, rank) && h.g.Cells().Has(jx, jy, jz)
    ensures |row| == 7 && forall q | 0 <= q < 7 :: row[q] == TEntry(h, h.g.Padded(jx, jy, jz), q)
    ensures b' == b - Shift(h, h.g.Padded(jx, jy, jz))
  {
    hide C, Addr, FromB, Storage;
    var c := h.g.Padded(jx, jy, jz);
    var cc, cw, ce, cs, cn, cb, ct := OpenCoefsT(h, c);
    var icc := RowNumber(h.g, rank, jx, jy, jz);
    var icw, ice, ics, icn, icb, ict :=
      Column(h.g, rank, jx, jy, jz, 4), Column(h.g, rank, jx, jy, jz, 5), Column(h.g, rank, jx, jy, jz, 2),
      Column(h.g, rank, jx, jy, jz, 3), Column(h.g, rank, jx, jy, jz, 0), Column(h.g, rank, jx, jy, jz, 1);
    SentinelIsSafe(h.g, rank, jx, jy, jz, 0);
    SentinelIsSafe(h.g, rank, jx, jy, jz, 1);
    SentinelIsSafe(h.g, rank, jx, jy, jz, 2);
    SentinelIsSafe(h.g, rank, jx, jy, jz, 3);
    SentinelIsSafe(h.g, rank, jx, jy, jz, 4);
    SentinelIsSafe(h.g, rank, jx, jy, jz, 5);
    icw, cc, b' := CloseWallT(h, 4, icw, cc, cw, b, c);
    ice, cc, b' := CloseWallT(h, 5, ice, cc, ce, b', c);
    ics, cc, b' := CloseWallT(h, 2, ics, cc, cs, b', c);
    icn, cc, b' := CloseWallT(h, 3, icn, cc, cn, b', c);
    icb, cc, b' := CloseWallT(h, 0, icb, cc, cb, b', c);
    ict, cc, b' := CloseWallT(h, 1, ict, cc, ct, b', c);
    row := [if icb != -1 then cb else 0.0, if ics != -1 then cs else 0.0, if icw != -1 then cw else 0.0,
            if icc != -1 then cc else 0.0,
            if ice != -1 then ce else 0.0, if icn != -1 then cn else 0.0, if ict != -1 then ct else 0.0];
  }

  /** The position of a cell in the solver's arrays. */
  function Place(cg: Dims, stm: nat, x: int, y: int, z: int): (a: int)
    ensures cg.Has(x + stm, y + stm, z + stm) ==> 0 <= a < cg.Size()
  {
    Addr(cg, x + stm, y + stm, z + stm)
  }

  /** The right-hand sides of the cells visited before (jx, jy, jz) are shifted, and nothing else has changed. */
  ghost predicate ShiftedSoFar(h: Heat, cg: Dims, stm: nat, b: seq<real>, b0: seq<real>, jx: int, jy: int, jz: int)
    requires h.Valid() && |b| == |b0| == cg.Size() && CoversCells(h.g, cg, stm)
  {
    && (forall x: int, y: int, z: int | h.g.Cells().Has(x, y, z) ::
          b[Place(cg, stm, x, y, z)] ==
          b0[Place(cg, stm, x, y, z)] - if Before(x, y, z, jx, jy, jz) then Shift(h, h.g.Padded(x, y, z)) else 0.0)
    && (forall a | 0 <= a < |b| &&
       (forall x: int, y: int, z: int | h.g.Cells().Has(x, y, z) :: a != Place(cg, stm, x, y, z)) :: b[a] == b0[a])
  }

  lemma ShiftStep(h: Heat, cg: Dims, stm: nat, b: seq<real>, b0: seq<real>, jx: int, jy: int, jz: int)
    requires h.Valid() && |b| == |b0| == cg.Size() && CoversCells(h.g, cg, stm) && h.g.Cells().Has(jx, jy, jz)
    requires ShiftedSoFar(h, cg, stm, b, b0, jx, jy, jz)
    ensures var j := Place(cg, stm, jx, jy, jz);
            ShiftedSoFar(h, cg, stm, b[j := b[j] - Shift(h, h.g.Padded(jx, jy, jz))], b0, jx + 1, jy, jz)
  {
    hide Shift, Place;
    var j := Place(cg, stm, jx, jy, jz);
    var b' := b[j := b[j] - Shift(h, h.g.Padded(jx, jy, jz))];
    forall x: int, y: int, z: int | h.g.Cells().Has(x, y, z)
      ensures b'[Place(cg, stm, x, y, z)] ==
              b0[Place(cg, stm, x, y, z)] - if Before(x, y, z, jx + 1, jy, jz) then Shift(h, h.g.Padded(x, y, z))
                  else 0.0
    {
      PlaceInjective(h.g, cg, stm, x, y, z, jx, jy, jz);
    }
  }

  lemma PlaceInjective(g: Frame, cg: Dims, stm: nat, x: int, y: int, z: int, x': int, y': int, z': int)
    requires g.Sized() && CoversCells(g, cg, stm) && g.Cells().Has(x, y, z) && g.Cells().Has(x', y', z')
    ensures Place(cg, stm, x, y, z) == Place(cg, stm, x', y', z') ==> x == x' && y == y' && z == z'
  {
    AddrInjective(cg, x + stm, y + stm, z + stm, x' + stm, y' + stm, z' + stm);
  }

  /** make_matrix_array_T: every row in A, every right-hand side in b. */
  method MakeMatrixT(h: Heat, rank: int, cg: Dims, stm: nat, A: array<real>, b: array<real>)
    requires h.Valid() && RankKnown(h.g, rank) && A.Length == 7 * cg.Size() && b.Length == cg.Size() && A != b
    requires CoversCells(h.g, cg, stm)
    modifies A, b
    ensures RowsSoFar(h.g, TEntries(h), cg, stm, A[..], 0, 0, h.g.n.z)
    ensures ShiftedSoFar(h, cg, stm, b[..], old(b[..]), 0, 0, h.g.n.z)
  {
    hide RowsSoFar, RowStored, ShiftedSoFar, TEntry, Addr, Reaches, Dims.Size;
    NoRows(h.g, TEntries(h), cg, stm, A[..]);
    NoShifts(h, cg, stm, b[..]);
    for jz := 0 to h.g.n.z
      invariant RowsSoFar(h.g, TEntries(h), cg, stm, A[..], 0, 0, jz)
      invariant ShiftedSoFar(h, cg, stm, b[..], old(b[..]), 0, 0, jz)
    {
      for jy := 0 to h.g.n.y
        invariant RowsSoFar(h.g, TEntries(h), cg, stm, A[..], 0, jy, jz)
        invariant ShiftedSoFar(h, cg, stm, b[..], old(b[..]), 0, jy, jz)
      {
        for jx := 0 to h.g.n.x
          invariant RowsSoFar(h.g, TEntries(h), cg, stm, A[..], jx, jy, jz)
          invariant ShiftedSoFar(h, cg, stm, b[..], old(b[..]), jx, jy, jz)
        {
          OneCell(h, rank, cg, stm, A, b, jx, jy, jz, old(b[..]));
        }
        RowsLine(h.g, TEntries(h), cg, stm, A[..], jy, jz);
        ShiftsLine(h, cg, stm, b[..], old(b[..]), jy, jz);
      }
      RowsPlane(h.g, TEntries(h), cg, stm, A[..], jz);
      ShiftsPlane(h, cg, stm, b[..], old(b[..]), jz);
    }
  }

  method OneCell(h: Heat, rank: int, cg: Dims, stm: nat, A: array<real>, b: array<real>, jx: nat, jy: nat, jz: nat,
                 ghost b0: seq<real>)
    requires h.Valid() && RankKnown(h.g, rank) && A.Length == 7 * cg.Size() && b.Length == cg.Size() == |b0| && A != b
    requires CoversCells(h.g, cg, stm) && h.g.Cells().Has(jx, jy, jz)
    requires RowsSoFar(h.g, TEntries(h), cg, stm, A[..], jx, jy, jz) && ShiftedSoFar(h, cg, stm, b[..], b0, jx, jy, jz)
    modifies A, b
    ensures RowsSoFar(h.g, TEntries(h), cg, stm, A[..], jx + 1, jy, jz)
    ensures ShiftedSoFar(h, cg, stm, b[..], b0, jx + 1, jy, jz)
  {
    hide RowsSoFar, RowStored, ShiftedSoFar, TEntry, Addr, Reaches, Dims.Size, Shift;
    ghost var before, right := A[..], b[..];
    var j := Place(cg, stm, jx, jy, jz);
    var row, bj := AssembleRowT(h, rank, jx, jy, jz, b[j]);
    ShiftStep(h, cg, stm, right, b0, jx, jy, jz);
    b[j] := bj;
    assert b[..] == right[j := bj];
    StoreRow(cg, stm, A, jx, jy, jz, row);
    RowStep(h.g, TEntries(h), cg, stm, before, A[..], jx, jy, jz, row);
    assert b[..] == right[j := bj];
  }

  lemma NoShifts(h: Heat, cg: Dims, stm: nat, b: seq<real>)
    requires h.Valid() && |b| == cg.Size() && CoversCells(h.g, cg, stm)
    ensures ShiftedSoFar(h, cg, stm, b, b, 0, 0, 0)
  {
    hide Shift, Place;
  }

  lemma ShiftsLine(h: Heat, cg: Dims, stm: nat, b: seq<real>, b0: seq<real>, jy: int, jz: int)
    requires h.Valid() && |b| == |b0| == cg.Size() && CoversCells(h.g, cg, stm)
    requires ShiftedSoFar(h, cg, stm, b, b0, h.g.n.x, jy, jz)
    ensures ShiftedSoFar(h, cg, stm, b, b0, 0, jy + 1, jz)
  {
    hide Shift, Place;
  }

  lemma ShiftsPlane(h: Heat, cg: Dims, stm: nat, b: seq<real>, b0: seq<real>, jz: int)
    requires h.Valid() && |b| == |b0| == cg.Size() && CoversCells(h.g, cg, stm)
    requires ShiftedSoFar(h, cg, stm, b, b0, 0, h.g.n.y, jz)
    ensures ShiftedSoFar(h, cg, stm, b, b0, 0, 0, jz + 1)
  {
    hide Shift, Place;
  }

  function OwnTermT(h: Heat, c: Index, x: seq<real>): real
    requires h.Valid() && h.g.IsCell(c) && |x| == h.Dim().Size()
  {
    TDiagonal(h, c) * Value(h, c, x)
  }

  lemma TermOfReduced(h: Heat, cg: Dims, stm: nat, A: seq<real>, x: seq<real>, jx: int, jy: int, jz: int, q: nat)
    requires h.Valid() && |A| == 7 * cg.Size() && CoversCells(h.g, cg, stm) && |x| == h.Dim().Size()
    requires RowsSoFar(h.g, TEntries(h), cg, stm, A, 0, 0, h.g.n.z) && h.g.Cells().Has(jx, jy, jz) && q < 7
    ensures h.g.IsCell(h.g.Padded(jx, jy, jz))
    ensures StoredTerm(h.g, cg, stm, A, x, jx, jy, jz, q) ==
            if q == 3 then OwnTermT(h, h.g.Padded(jx, jy, jz), x)
                else BesideTerm(h, h.g.Padded(jx, jy, jz), EntryDir(q), x)
  {
    hide RowsSoFar, StoredTerm, TDiagonal, Beside, At, Dims.Size, Reaches;
    EntryCellIsInside(h.g, jx, jy, jz, q);
    StoredTermIs(h.g, TEntries(h), cg, stm, A, x, jx, jy, jz, q);
  }

  /** The stored array, applied to a field, is the reduced row. */
  lemma StoredIsReduced(h: Heat, cg: Dims, stm: nat, A: seq<real>, x: seq<real>, jx: int, jy: int, jz: int)
    requires h.Valid() && |A| == 7 * cg.Size() && CoversCells(h.g, cg, stm) && |x| == h.Dim().Size()
    requires RowsSoFar(h.g, TEntries(h), cg, stm, A, 0, 0, h.g.n.z) && h.g.Cells().Has(jx, jy, jz)
    ensures h.g.IsCell(h.g.Padded(jx, jy, jz))
    ensures StoredRow(h.g, cg, stm, A, x, jx, jy, jz) == Reduced(h, h.g.Padded(jx, jy, jz), x)
  {
    hide RowsSoFar, StoredTerm, BesideTerm, TDiagonal, Value, TEntries, Reaches;
    forall q: nat | q < 7
      ensures StoredTerm(h.g, cg, stm, A, x, jx, jy, jz, q) ==
              if q == 3 then OwnTermT(h, h.g.Padded(jx, jy, jz), x)
              else BesideTerm(h, h.g.Padded(jx, jy, jz), EntryDir(q), x)
    {
      TermOfReduced(h, cg, stm, A, x, jx, jy, jz, q);
    }
  }

  /**
   The assembled system, matrix and right-hand side as make_matrix_array_T leaves them, holds in a cell
   without diffusion walls exactly when the full stencil with the ghosts of bct_calc does.
   */
  lemma StoredSystemIsExact(h: Heat, cg: Dims, stm: nat, A: seq<real>, b: seq<real>, b0: seq<real>, x: seq<real>,
                            jx: int, jy: int, jz: int)
    requires h.Valid() && |A| == 7 * cg.Size() && |b| == |b0| == cg.Size() && CoversCells(h.g, cg, stm)
    requires |x| == h.Dim().Size() && h.g.Cells().Has(jx, jy, jz)
    requires RowsSoFar(h.g, TEntries(h), cg, stm, A, 0, 0, h.g.n.z) && ShiftedSoFar(h, cg, stm, b, b0, 0, 0, h.g.n.z)
    requires forall dir: nat | dir < 6 && h.g.AtWall(h.g.Padded(jx, jy, jz), dir) ::
               !h.wall(dir, h.g.Padded(jx, jy, jz)).Diffusion?
    ensures h.g.IsCell(h.g.Padded(jx, jy, jz)) && cg.Has(jx + stm, jy + stm, jz + stm)
    ensures StoredRow(h.g, cg, stm, A, x, jx, jy, jz) == b[Addr(cg, jx + stm, jy + stm, jz + stm)] <==>
            Full(h, h.g.Padded(jx, jy, jz), FilledSides(h.g, TemperatureRules(h), x, 6)) ==
            b0[Addr(cg, jx + stm, jy + stm, jz + stm)]
  {
    hide RowsSoFar, StoredRow, Reduced, Full, FilledSides, TEntries, Shift, Reaches, Dims.Size;
    StoredIsReduced(h, cg, stm, A, x, jx, jy, jz);
    assert Before(jx, jy, jz, 0, 0, h.g.n.z);
    EliminationIsExact(h, x, h.g.Padded(jx, jy, jz), b0[Addr(cg, jx + stm, jy + stm, jz + stm)]);
  }
}
