/**
 What the entries of the temperature matrix mean (jupiter/ccse_poisson.c, 498-640), read off the stored
 array and the material arrays: heat passes a face as through two half cells in series, and a uniform
 field without prescribed wall temperatures only stores heat.
 */
module HeatLaws {
  import opened Layout
  import opened Slab
  import opened Ranks
  import opened Frames
  import Ghosts
  import GhostLaws
  import opened MatrixRows
  import opened Thermal

  /** The mean without its inner quotients. */
  lemma MeanIs(a: real, b: real, d2: real)
    requires a > 0.0 && b > 0.0
    ensures 1.0 / a + 1.0 / b > 0.0
    ensures 2.0 / (1.0 / a + 1.0 / b) * d2 * (a + b) == 2.0 * (a * b) * d2
  {
    var p, q := 1.0 / a, 1.0 / b;
    MeanIsDefined(a, b);
    var s := p + q;
    assert p * a == 1.0 && q * b == 1.0;
    SumOverProduct(a, b, p, q);
    QuotientTimes(2.0 / s, s, a * b, a + b, d2);
  }

  lemma SumOverProduct(a: real, b: real, p: real, q: real)
    requires p * a == 1.0 && q * b == 1.0
    ensures (p + q) * (a * b) == a + b
  {
    assert (p + q) * (a * b) == (p * a) * b + (q * b) * a;
  }

  lemma QuotientTimes(m: real, s: real, ab: real, sum: real, d2: real)
    requires m * s == 2.0 && s * ab == sum
    ensures m * d2 * sum == 2.0 * ab * d2
  {
    assert m * d2 * (s * ab) == (m * s) * ab * d2;
  }

  /**
   The conductance of a face is that of two half cells in series: there is a temperature ti on the face
   for which both halves carry the heat that the conductance gives for the whole difference.
   */
  lemma SeriesLaw(a: real, b: real, d: real, ta: real, tb: real) returns (ti: real)
    requires a > 0.0 && b > 0.0
    ensures 2.0 * a * (ti - ta) * (d * d) == Conductance(a, b, d) * (tb - ta)
    ensures 2.0 * b * (tb - ti) * (d * d) == Conductance(a, b, d) * (tb - ta)
  {
    var d2, s, k := d * d, a + b, Conductance(a, b, d);
    MeanIs(a, b, d2);
    ti := (a * ta + b * tb) / s;
    hide Conductance;
    assert ti * s == a * ta + b * tb;
    HalfLaw(a, b, s, ta, tb, ti, d2, k);
    HalfLaw(b, a, s, tb, ta, ti, d2, k);
    SignFlips(b, ti, tb, d2, k, ta);
  }

  /** One half cell of conductivity a. */
  lemma HalfLaw(a: real, b: real, s: real, ta: real, tb: real, ti: real, d2: real, k: real)
    requires s == a + b && s > 0.0 && ti * s == a * ta + b * tb
    requires k * s == 2.0 * (a * b) * d2
    ensures 2.0 * a * (ti - ta) * d2 == k * (tb - ta)
  {
    var drop := tb - ta;
    assert (ti - ta) * s == b * drop;
    ScaledHalf(a, b, ti - ta, s, drop, d2);
    assert (k * drop) * s == (k * s) * drop;
    Cancel(2.0 * a * (ti - ta) * d2, k * drop, s);
  }

  lemma ScaledHalf(a: real, b: real, half: real, s: real, drop: real, d2: real)
    requires half * s == b * drop
    ensures (2.0 * a * half * d2) * s == 2.0 * (a * b) * d2 * drop
  {
    assert (2.0 * a * half * d2) * s == 2.0 * a * d2 * (half * s);
    assert 2.0 * a * d2 * (b * drop) == 2.0 * (a * b) * d2 * drop;
  }

  lemma Cancel(x: real, y: real, s: real)
    requires x * s == y * s && s > 0.0
    ensures x == y
  {
    assert (x - y) * s == 0.0;
  }

  lemma SignFlips(b: real, ti: real, tb: real, d2: real, k: real, ta: real)
    requires 2.0 * b * (ti - tb) * d2 == k * (ta - tb)
    ensures 2.0 * b * (tb - ti) * d2 == k * (tb - ta)
  {
    assert 2.0 * b * (tb - ti) * d2 == -(2.0 * b * (ti - tb) * d2);
    assert k * (tb - ta) == -(k * (ta - tb));
  }

  /**
   The stored entry between two cells, from the conductivities and the spacing alone; beside a wall
   nothing is stored.
   */
  lemma StoredFaceLaw(h: Heat, cg: Dims, stm: nat, A: seq<real>, jx: int, jy: int, jz: int, q: nat)
    requires h.Valid() && |A| == 7 * cg.Size() && CoversCells(h.g, cg, stm)
    requires RowsSoFar(h.g, TEntries(h), cg, stm, A, 0, 0, h.g.n.z) && h.g.Cells().Has(jx, jy, jz) && q < 7 && q != 3
    ensures var c := h.g.Padded(jx, jy, jz); var dir := EntryDir(q);
            var o := Across(c, dir);
            var j, i := Addr(h.Dim(), c.x, c.y, c.z), Addr(h.Dim(), o.x, o.y, o.z);
            && 0 <= j < |h.thc| && 0 <= i < |h.thc|
            && (h.g.AtWall(c, dir) ==> A[Slot(cg, stm, jx, jy, jz, q)] == 0.0)
            && (!h.g.AtWall(c, dir) ==>
                  A[Slot(cg, stm, jx, jy, jz, q)] * (h.thc[j] + h.thc[i]) ==
                  2.0 * (h.thc[j] * h.thc[i]) * (h.di[dir / 2] * h.di[dir / 2]))
  {
    hide Addr, Slot, Beside, Dims.Size;
    StoredBeside(h, cg, stm, A, jx, jy, jz, q);
    BesideLaw(h, h.g.Padded(jx, jy, jz), EntryDir(q));
  }

  lemma BesideLaw(h: Heat, c: Index, dir: nat)
    requires h.Valid() && h.g.IsCell(c) && dir < 6
    ensures var o := Across(c, dir);
            var j, i := Addr(h.Dim(), c.x, c.y, c.z), Addr(h.Dim(), o.x, o.y, o.z);
            && 0 <= j < |h.thc| && 0 <= i < |h.thc|
            && (h.g.AtWall(c, dir) ==> Beside(h, c, dir) == 0.0)
            && (!h.g.AtWall(c, dir) ==>
                  Beside(h, c, dir) * (h.thc[j] + h.thc[i]) ==
                  2.0 * (h.thc[j] * h.thc[i]) * (h.di[dir / 2] * h.di[dir / 2]))
  {
    hide Addr, Dims.Size;
    FaceOfIsFace(h.g, c, dir);
    var o := Across(c, dir);
    MeanIs(h.thc[Addr(h.Dim(), c.x, c.y, c.z)], h.thc[Addr(h.Dim(), o.x, o.y, o.z)],
           h.di[dir / 2] * h.di[dir / 2]);
  }

  lemma StoredBeside(h: Heat, cg: Dims, stm: nat, A: seq<real>, jx: int, jy: int, jz: int, q: nat)
    requires h.Valid() && |A| == 7 * cg.Size() && CoversCells(h.g, cg, stm)
    requires RowsSoFar(h.g, TEntries(h), cg, stm, A, 0, 0, h.g.n.z) && h.g.Cells().Has(jx, jy, jz) && q < 7 && q != 3
    ensures h.g.IsCell(h.g.Padded(jx, jy, jz))
    ensures A[Slot(cg, stm, jx, jy, jz, q)] == Beside(h, h.g.Padded(jx, jy, jz), EntryDir(q))
  {
    hide Slot, Beside;
    EntryCellIsInside(h.g, jx, jy, jz, q);
    assert Before(jx, jy, jz, 0, 0, h.g.n.z);
  }

  /** A face passes nothing in a uniform field, and a wall without a prescribed temperature neither. */
  lemma UniformPart(h: Heat, c: Index, dir: nat, x: seq<real>, v: real)
    requires h.Valid() && h.g.IsCell(c) && dir < 6 && |x| == h.Dim().Size()
    requires forall j | 0 <= j < |x| :: x[j] == v
    requires !(h.g.AtWall(c, dir) && h.wall(dir, c).Isothermal?)
    ensures ReducedPart(h, c, dir, x) == 0.0
  {
    hide C, Addr, Dims.Size;
    FaceOfIsFace(h.g, c, dir);
    assert Value(h, c, x) == v && Beyond(h, c, dir, x) == v;
    NothingPasses(C(h, c, dir), v);
  }

  lemma NothingPasses(a: real, v: real)
    ensures a * v + (-a) * v == 0.0
  {
  }

  /**
   In a uniform field the row of a cell without prescribed wall temperatures is the heat the cell stores
   per step, plus the shift, from the material arrays alone.
   */
  lemma UniformLaw(h: Heat, cg: Dims, stm: nat, A: seq<real>, x: seq<real>, v: real, jx: int, jy: int, jz: int)
    requires h.Valid() && |A| == 7 * cg.Size() && CoversCells(h.g, cg, stm) && |x| == h.Dim().Size()
    requires RowsSoFar(h.g, TEntries(h), cg, stm, A, 0, 0, h.g.n.z) && h.g.Cells().Has(jx, jy, jz)
    requires forall j | 0 <= j < |x| :: x[j] == v
    requires forall dir: nat | dir < 6 ::
               !(h.g.AtWall(h.g.Padded(jx, jy, jz), dir) && h.wall(dir, h.g.Padded(jx, jy, jz)).Isothermal?)
    ensures var c := h.g.Padded(jx, jy, jz); var j := Addr(h.Dim(), c.x, c.y, c.z);
            && 0 <= j < |x|
            && StoredRow(h.g, cg, stm, A, x, jx, jy, jz) ==
               -((if h.porous then h.sgm[j] else 1.0) * h.dens[j] * h.specht[j] * h.dti + 0.00000001) * v
  {
    hide RowsSoFar, StoredRow, Reduced, TEntries, ReducedPart, Addr, Dims.Size;
    var c := h.g.Padded(jx, jy, jz);
    StoredIsReduced(h, cg, stm, A, x, jx, jy, jz);
    ReducedIsSum(h, c, x);
    forall dir: nat | dir < 6
      ensures ReducedPart(h, c, dir, x) == 0.0
    {
      UniformPart(h, c, dir, x, v);
    }
    FaceOfIsFace(h.g, c, 0);
  }

  /** What a wall condition asks of a ghost that lies depth cells behind the cell at the wall. */
  predicate HeatGhost(fp: ThermalBoundary, behind: real, inside: real, edge: real, inner: real, depth: int) {
    match fp
    case Insulation => behind == inside
    case Isothermal(temperature) => (behind + inside) / 2.0 == temperature
    case Diffusion(limit) =>
      var rise := depth as real * (edge - inner);
      behind >= limit && (behind - edge == rise || (behind == limit && behind - edge > rise))
  }

  /**
   The temperatures that bct_calc leaves behind the walls, in every layer whose partner is a cell: no
   gradient at an insulated wall, the prescribed temperature on an isothermal one, and the slope of the
   last two cells, not below the limit, where heat diffuses out.
   */
  lemma WallGhosts(h: Heat, x: seq<real>, dir: nat, c: Index, a: Index, e: Index, depth: int)
    requires h.Valid() && |x| == h.Dim().Size() && dir < 6 && h.g.nrk[dir] == -1
    requires GhostLaws.Behind(h.g, dir, c) && GhostLaws.Opposite(h.g, dir, c, a)
    requires GhostLaws.EdgeOf(h.g, dir, c, e, depth) && h.g.IsCell(a)
    requires h.wall(dir, e).Diffusion? ==> h.g.IsCell(GhostLaws.InFront(dir, e))
    ensures var d, i := h.Dim(), GhostLaws.InFront(dir, e);
            && d.Has(c.x, c.y, c.z) && d.Has(a.x, a.y, a.z) && d.Has(e.x, e.y, e.z) && d.Has(i.x, i.y, i.z)
            && HeatGhost(h.wall(dir, e), At(Ghosts.FilledSides(h.g, TemperatureRules(h), x, 6), d, c), At(x, d, a),
                         At(x, d, e), At(x, d, i), depth)
  {
    hide At, Ghosts.FilledSides, GhostLaws.Behind, GhostLaws.Opposite, GhostLaws.EdgeOf, Dims.Size;
    GhostLaws.GhostsObey(h.g, TemperatureRules(h), x, dir, c, a, e, depth);
  }
}
