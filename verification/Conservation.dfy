/**
 Conservation of volume in divergence (jupiter/divergence_free.c, 35-152): summed over a rank's cells the
 divergence is the net flow through the faces around them.  What leaves a cell enters the next one, also
 where an immersed inlet prescribes the velocity between them.
 */
module Conservation {
  import opened Layout
  import opened Slab
  import opened Ranks
  import opened Frames
  import opened Flow
  import opened Projection
  import opened Sums
  import Definiteness

  /** The flow of axis k through the lower face of c. */
  function Through(p: Case, k: nat, c: Index, u: seq<real>): real
    requires p.Valid() && p.IsFace(k, c) && |u| == p.Dim().Size()
  {
    FaceVelocity(p, k, c, u) * p.di[k]
  }

  function Flows(p: Case, k: nat, u: seq<real>): Index -> real
    requires p.Valid() && k < 3 && |u| == p.Dim().Size()
  {
    (c: Index) => if p.IsCell(c) then AxisDivergence(p, k, c, u) else 0.0
  }

  /** What comes in through the faces of c that bound the domain on axis k. */
  function InflowAt(p: Case, k: nat, c: Index, u: seq<real>): real
    requires p.Valid() && k < 3 && p.IsCell(c) && |u| == p.Dim().Size()
  {
    (if Get(c, k) == p.g.stm then Through(p, k, c, u) else 0.0)
    - (if Get(c, k) == Get(p.g.n, k) + p.g.stm - 1 then Through(p, k, Next(c, k), u) else 0.0)
  }

  function Inflow(p: Case, k: nat, u: seq<real>): Index -> real
    requires p.Valid() && k < 3 && |u| == p.Dim().Size()
  {
    (c: Index) => if p.IsCell(c) then InflowAt(p, k, c, u) else 0.0
  }

  lemma NextOnLine(p: Case, k: nat, a: int, b: int, m: nat)
    requires Definiteness.IsLine(p, k, a, b) && 1 <= m <= Get(p.g.n, k)
    ensures var c := PlaneCell(k, a, b, p.g.stm + m - 1);
            p.IsCell(c) && Get(c, k) == p.g.stm + m - 1 && Next(c, k) == PlaneCell(k, a, b, p.g.stm + m)
  {
  }

  lemma FlowOfCell(p: Case, k: nat, c: Index, u: seq<real>)
    requires p.Valid() && k < 3 && p.IsCell(c) && |u| == p.Dim().Size()
    ensures AxisDivergence(p, k, c, u) == Through(p, k, Next(c, k), u) - Through(p, k, c, u)
  {
    hide FaceVelocity;
  }

  /** Along a line of cells the inner faces cancel. */
  lemma {:induction false} LineFlows(p: Case, k: nat, a: int, b: int, u: seq<real>, m: nat)
    requires p.Valid() && Definiteness.IsLine(p, k, a, b) && |u| == p.Dim().Size() && 1 <= m <= Get(p.g.n, k)
    ensures p.IsFace(k, PlaneCell(k, a, b, p.g.stm + m)) && p.IsFace(k, PlaneCell(k, a, b, p.g.stm))
    ensures SumLine(Flows(p, k, u), p.g.stm, k, a, b, m) ==
            Through(p, k, PlaneCell(k, a, b, p.g.stm + m), u) - Through(p, k, PlaneCell(k, a, b, p.g.stm), u)
  {
    hide Through, AxisDivergence, Case.IsCell, PlaneCell;
    var c := PlaneCell(k, a, b, p.g.stm + m - 1);
    NextOnLine(p, k, a, b, m);
    FlowOfCell(p, k, c, u);
    if m == 1 {
      assert SumLine(Flows(p, k, u), p.g.stm, k, a, b, 0) == 0.0;
    } else {
      LineFlows(p, k, a, b, u, m - 1);
    }
  }

  lemma {:induction false} LineInflow(p: Case, k: nat, a: int, b: int, u: seq<real>, m: nat)
    requires p.Valid() && Definiteness.IsLine(p, k, a, b) && |u| == p.Dim().Size() && 1 <= m <= Get(p.g.n, k)
    ensures p.IsFace(k, PlaneCell(k, a, b, p.g.stm + m)) && p.IsFace(k, PlaneCell(k, a, b, p.g.stm))
    ensures SumLine(Inflow(p, k, u), p.g.stm, k, a, b, m) ==
            Through(p, k, PlaneCell(k, a, b, p.g.stm), u)
            - if m == Get(p.g.n, k) then Through(p, k, PlaneCell(k, a, b, p.g.stm + m), u) else 0.0
  {
    hide Through, Case.IsCell, PlaneCell;
    NextOnLine(p, k, a, b, m);
    if m == 1 {
      assert SumLine(Inflow(p, k, u), p.g.stm, k, a, b, 0) == 0.0;
    } else {
      LineInflow(p, k, a, b, u, m - 1);
    }
  }

  /** The whole box: on axis k nothing but the inflow counts. */
  lemma AxisConserves(p: Case, k: nat, u: seq<real>)
    requires p.Valid() && k < 3 && |u| == p.Dim().Size()
    ensures Total(p.g, Flows(p, k, u)) == -Total(p.g, Inflow(p, k, u))
  {
    hide Flows, Inflow, SumLine;
    var g, e, l := p.g, Flows(p, k, u), Inflow(p, k, u);
    var nb: nat := if k == 0 then g.n.y else g.n.z;
    var na: nat := if k == 2 then g.n.y else g.n.x;
    forall a, b | g.stm <= a < g.stm + na && g.stm <= b < g.stm + nb
      ensures SumLine(e, g.stm, k, a, b, Get(g.n, k)) == -SumLine(l, g.stm, k, a, b, Get(g.n, k))
    {
      LineFlows(p, k, a, b, u, Get(g.n, k));
      LineInflow(p, k, a, b, u, Get(g.n, k));
    }
    BoxCancels(e, l, g.stm, k, nb, na, Get(g.n, k));
    if k == 1 {
      RowsFirst(e, g.stm, nb, na, g.n.y);
      RowsFirst(l, g.stm, nb, na, g.n.y);
    } else if k == 0 {
      ColumnsFirst(e, g.stm, nb, na, g.n.z);
      ColumnsFirst(l, g.stm, nb, na, g.n.z);
    }
  }

  function Nothing(): Index -> real {
    (c: Index) => 0.0
  }

  lemma NothingInTotal(g: Frame)
    requires g.Sized()
    ensures Total(g, Nothing()) == 0.0
  {
    forall a, b
      ensures SumLine(Nothing(), g.stm, 2, a, b, g.n.x) == -SumLine(Nothing(), g.stm, 2, a, b, g.n.x)
    {
      Definiteness.ZeroLine(Nothing(), g.stm, a, b, g.n.x);
    }
    BoxCancels(Nothing(), Nothing(), g.stm, 2, g.n.z, g.n.y, g.n.x);
  }

  /** The volume a cell loses per unit of time. */
  function Loss(p: Case, vel: seq<seq<real>>): Index -> real
    requires p.Valid() && Velocities(p, vel)
  {
    (c: Index) => if p.IsCell(c) then DivergenceAt(p, c, vel) * p.dt else 0.0
  }

  /** What comes in through the six sides of the domain. */
  function AllInflow(p: Case, vel: seq<seq<real>>): Index -> real
    requires p.Valid() && Velocities(p, vel)
  {
    (c: Index) => Inflow(p, 2, vel[2])(c) + Inflow(p, 1, vel[1])(c) + Inflow(p, 0, vel[0])(c)
  }

  lemma LossSplits(p: Case, vel: seq<seq<real>>, c: Index)
    requires p.Valid() && Velocities(p, vel)
    ensures Loss(p, vel)(c) == Flows(p, 2, vel[2])(c) + Flows(p, 1, vel[1])(c) + Flows(p, 0, vel[0])(c)
  {
    hide AxisDivergence;
    if p.IsCell(c) {
      OverStep(AxisDivergence(p, 2, c, vel[2]) + AxisDivergence(p, 1, c, vel[1]) + AxisDivergence(p, 0, c, vel[0]),
               p.dt);
    }
  }

  lemma OverStep(a: real, dt: real)
    requires dt != 0.0
    ensures a * (1.0 / dt) * dt == a
  {
    var t := 1.0 / dt;
    assert t * dt == 1.0;
    assert a * t * dt == a * (t * dt);
  }

  /**
   The divergence of all cells together is what flows out through the sides of the domain, for every
   velocity field and every set of immersed surfaces.
   */
  lemma VolumeIsConserved(p: Case, vel: seq<seq<real>>)
    requires p.Valid() && Velocities(p, vel)
    ensures Total(p.g, Loss(p, vel)) == -Total(p.g, AllInflow(p, vel))
  {
    var e2, e1, e0 := Flows(p, 2, vel[2]), Flows(p, 1, vel[1]), Flows(p, 0, vel[0]);
    var i2, i1, i0 := Inflow(p, 2, vel[2]), Inflow(p, 1, vel[1]), Inflow(p, 0, vel[0]);
    var z := Nothing();
    forall c
      ensures Loss(p, vel)(c) == e2(c) + e1(c) + e0(c) + z(c)
      ensures AllInflow(p, vel)(c) == i2(c) + i1(c) + i0(c) + z(c)
    {
      LossSplits(p, vel, c);
    }
    hide Flows, Inflow, Loss, AllInflow, Nothing;
    BoxAdds(e2, e1, e0, z, Loss(p, vel), p.g.stm, p.g.n.z, p.g.n.y, p.g.n.x);
    BoxAdds(i2, i1, i0, z, AllInflow(p, vel), p.g.stm, p.g.n.z, p.g.n.y, p.g.n.x);
    AxisConserves(p, 0, vel[0]);
    AxisConserves(p, 1, vel[1]);
    AxisConserves(p, 2, vel[2]);
    NothingInTotal(p.g);
  }
}
