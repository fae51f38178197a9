/**
 divergence and vel_correction as they run over the flat arrays (jupiter/divergence_free.c, 35-226).
 */
module FlowSteps {
  import opened Layout
  import opened Slab
  import opened Ranks
  import opened Frames
  import opened Flow
  import opened Projection

  /** One face velocity of divergence: u[j], unless an inlet on the face prescribes it. */
  method FaceFlow(p: Case, k: nat, j: int, u: array<real>, ghost c: Index) returns (v: real)
    requires p.Valid() && k < 3 && p.IsFace(k, c) && u.Length == p.Dim().Size()
    requires j == Addr(p.Dim(), c.x, c.y, c.z)
    ensures v == FaceVelocity(p, k, c, u[..])
  {
    hide Addr;
    FaceCells(p, k, c);
    v := u[j];
    if p.surface.Some? {
      var s := p.surface.value[3 * j + 2 - k];
      if s.Some? {
        v := SurfaceVelocity(v, s.value, p.norm[2 - k][3 * j + 2 - k]);
      }
    }
  }

  /** divergence_surface_boundary_u. */
  function SurfaceVelocity(u: real, s: Surface, norm: real): real {
    if s.inlet && s.normal then s.vel * norm else u
  }

  function Abs(x: real): real { if x < 0.0 then -x else x }

  /** The part of div that belongs to the cells visited before (jx, jy, jz) is done; m bounds it. */
  ghost predicate DivergenceSoFar(p: Case, div: seq<real>, vel: seq<seq<real>>, m: real, jx: int, jy: int, jz: int)
    requires p.Valid() && Velocities(p, vel)
  {
    && |div| == p.g.Cells().Size()
    && m >= 0.0
    && (forall x: int, y: int, z: int | p.g.Cells().Has(x, y, z) && Before(x, y, z, jx, jy, jz) ::
          div[Addr(p.g.Cells(), x, y, z)] == DivergenceAt(p, p.g.Padded(x, y, z), vel) &&
          Abs(div[Addr(p.g.Cells(), x, y, z)]) <= m)
    && (m == 0.0 ||
        exists x: int, y: int, z: int ::
          p.g.Cells().Has(x, y, z) && Before(x, y, z, jx, jy, jz) && m == Abs(div[Addr(p.g.Cells(), x, y, z)]))
  }

  /** divergence with IBM off. */
  method Divergence(p: Case, div: array<real>, u: array<real>, v: array<real>, w: array<real>) returns (divMax: real)
    requires p.Valid() && div.Length == p.g.Cells().Size() && div !in {u, v, w}
    requires u.Length == v.Length == w.Length == p.Dim().Size()
    modifies div
    ensures DivergenceSoFar(p, div[..], [w[..], v[..], u[..]], divMax, 0, 0, p.g.n.z)
  {
    hide Addr, DivergenceAt, DivergenceSoFar;
    divMax := 0.0;
    ghost var vel := [w[..], v[..], u[..]];
    NothingYet(p, div[..], vel);
    for jz := 0 to p.g.n.z
      invariant DivergenceSoFar(p, div[..], vel, divMax, 0, 0, jz)
      invariant vel == [w[..], v[..], u[..]]
    {
      for jy := 0 to p.g.n.y
        invariant DivergenceSoFar(p, div[..], vel, divMax, 0, jy, jz)
        invariant vel == [w[..], v[..], u[..]]
      {
        for jx := 0 to p.g.n.x
          invariant DivergenceSoFar(p, div[..], vel, divMax, jx, jy, jz)
          invariant vel == [w[..], v[..], u[..]]
        {
          var q := CellDivergence(p, u, v, w, jx, jy, jz);
          var i := Addr(p.g.Cells(), jx, jy, jz);
          DivergenceStep(p, div[..], vel, divMax, jx, jy, jz, q);
          div[i] := q;
          if Abs(div[i]) > divMax {
            divMax := Abs(div[i]);
          }
        }
        NextRow(p, div[..], vel, divMax, jy, jz);
      }
      NextPlane(p, div[..], vel, divMax, jz);
    }
  }

  lemma NothingYet(p: Case, div: seq<real>, vel: seq<seq<real>>)
    requires p.Valid() && Velocities(p, vel) && |div| == p.g.Cells().Size()
    ensures DivergenceSoFar(p, div, vel, 0.0, 0, 0, 0)
  {
    hide DivergenceAt, Addr;
  }

  lemma NextRow(p: Case, div: seq<real>, vel: seq<seq<real>>, m: real, jy: int, jz: int)
    requires p.Valid() && Velocities(p, vel) && DivergenceSoFar(p, div, vel, m, p.g.n.x, jy, jz)
    ensures DivergenceSoFar(p, div, vel, m, 0, jy + 1, jz)
  {
    hide DivergenceAt, Addr;
  }

  lemma NextPlane(p: Case, div: seq<real>, vel: seq<seq<real>>, m: real, jz: int)
    requires p.Valid() && Velocities(p, vel) && DivergenceSoFar(p, div, vel, m, 0, p.g.n.y, jz)
    ensures DivergenceSoFar(p, div, vel, m, 0, 0, jz + 1)
  {
    hide DivergenceAt, Addr;
  }

  lemma DivergenceStep(p: Case, div: seq<real>, vel: seq<seq<real>>, m: real, jx: int, jy: int, jz: int, q: real)
    requires p.Valid() && Velocities(p, vel) && DivergenceSoFar(p, div, vel, m, jx, jy, jz)
    requires p.g.Cells().Has(jx, jy, jz) && q == DivergenceAt(p, p.g.Padded(jx, jy, jz), vel)
    ensures DivergenceSoFar(p, div[Addr(p.g.Cells(), jx, jy, jz) := q], vel, if Abs(q) > m then Abs(q)
            else m, jx + 1, jy, jz)
  {
    hide DivergenceAt, Addr;
    var i := Addr(p.g.Cells(), jx, jy, jz);
    var div' := div[i := q];
    forall x: int, y: int, z: int | p.g.Cells().Has(x, y, z)
      ensures Addr(p.g.Cells(), x, y, z) == i ==> x == jx && y == jy && z == jz
    {
      AddrInjective(p.g.Cells(), x, y, z, jx, jy, jz);
    }
    if Abs(q) > m {
      assert div'[Addr(p.g.Cells(), jx, jy, jz)] == q;
    } else if m != 0.0 {
      var x: int, y: int, z: int :| p.g.Cells().Has(x, y, z) && Before(x, y, z, jx, jy, jz) &&
        m == Abs(div[Addr(p.g.Cells(), x, y, z)]);
      assert div'[Addr(p.g.Cells(), x, y, z)] == div[Addr(p.g.Cells(), x, y, z)];
    }
  }

  /** The body of the loop nest. */
  method CellDivergence(p: Case, u: array<real>, v: array<real>, w: array<real>, jx: nat, jy: nat,
                        jz: nat) returns (q: real)
    requires p.Valid() && p.g.Cells().Has(jx, jy, jz)
    requires u.Length == v.Length == w.Length == p.Dim().Size()
    ensures q == DivergenceAt(p, p.g.Padded(jx, jy, jz), [w[..], v[..], u[..]])
  {
    hide FaceVelocity, Addr;
    var d := p.Dim();
    var mx, mxy := d.mx, d.mx * d.my;
    ghost var c := p.g.Padded(jx, jy, jz);
    var j := Addr(d, jx + p.g.stm, jy + p.g.stm, jz + p.g.stm);
    StrideIsStep(d, c, 0);
    StrideIsStep(d, c, 1);
    StrideIsStep(d, c, 2);
    var um := FaceFlow(p, 2, j, u, c);
    var up := FaceFlow(p, 2, j + 1, u, Next(c, 2));
    var vm := FaceFlow(p, 1, j, v, c);
    var vp := FaceFlow(p, 1, j + mx, v, Next(c, 1));
    var wm := FaceFlow(p, 0, j, w, c);
    var wp := FaceFlow(p, 0, j + mxy, w, Next(c, 0));
    q := ((up - um) * p.di[2] + (vp - vm) * p.di[1] + (wp - wm) * p.di[0]) * (1.0 / p.dt);
  }

  /** The faces vel_correction has visited before (jx, jy, jz) carry the new velocity, all else the old one. */
  ghost predicate CorrectionSoFar(p: Case, k: nat, u: seq<real>, u0: seq<real>, x: seq<real>, jx: int, jy: int, jz: int)
    requires p.Valid() && k < 3 && |u| == |u0| == |x| == p.Dim().Size()
  {
    forall c: Index | p.Dim().Has(c.x, c.y, c.z) ::
      At(u, p.Dim(), c) ==
      if p.IsFace(k, c) && Before(c.x - p.g.stm, c.y - p.g.stm, c.z - p.g.stm, jx, jy, jz) then CorrectedAt(p, k, c, u0,
          x)
      else At(u0, p.Dim(), c)
  }

  /** The faces of axis k: one layer more than cells along the axis. */
  function Faces(p: Case, k: nat): Dims
    requires p.g.Sized()
  {
    Dims(p.g.n.x + (if k == 2 then 1 else 0), p.g.n.y + (if k == 1 then 1 else 0), p.g.n.z + (if k == 0 then 1 else 0))
  }

  lemma FacesAreVisited(p: Case, k: nat, c: Index)
    requires p.Valid() && k < 3
    ensures p.IsFace(k, c) <==> Faces(p, k).Has(c.x - p.g.stm, c.y - p.g.stm, c.z - p.g.stm)
  {
  }

  /** One of the three loop nests of vel_correction; x is the pressure. */
  method CorrectAxis(p: Case, k: nat, u: array<real>, x: array<real>)
    requires p.Valid() && k < 3 && u != x && u.Length == x.Length == p.Dim().Size()
    modifies u
    ensures Corrected(p, k, old(u[..]), u[..], x[..])
    ensures forall c: Index | p.Dim().Has(c.x, c.y, c.z) && !p.IsFace(k, c) ::
              At(u[..], p.Dim(), c) == old(At(u[..], p.Dim(), c))
  {
    hide Addr, CorrectionSoFar, Corrected, At;
    ghost var u0 := u[..];
    var r := Faces(p, k);
    NoneCorrected(p, k, u0, x[..]);
    for jz := 0 to r.mz
      invariant CorrectionSoFar(p, k, u[..], u0, x[..], 0, 0, jz)
    {
      for jy := 0 to r.my
        invariant CorrectionSoFar(p, k, u[..], u0, x[..], 0, jy, jz)
      {
        for jx := 0 to r.mx
          invariant CorrectionSoFar(p, k, u[..], u0, x[..], jx, jy, jz)
        {
          CorrectFace(p, k, u, x, jx, jy, jz, u0);
        }
        NextFaceRow(p, k, u[..], u0, x[..], jy, jz);
      }
      NextFacePlane(p, k, u[..], u0, x[..], jz);
    }
    AllCorrectedOnAxis(p, k, u[..], u0, x[..]);
  }

  lemma NoneCorrected(p: Case, k: nat, u0: seq<real>, x: seq<real>)
    requires p.Valid() && k < 3 && |u0| == |x| == p.Dim().Size()
    ensures CorrectionSoFar(p, k, u0, u0, x, 0, 0, 0)
  {
    hide At, CorrectedAt;
    forall c: Index | p.Dim().Has(c.x, c.y, c.z) && p.IsFace(k, c)
      ensures !Before(c.x - p.g.stm, c.y - p.g.stm, c.z - p.g.stm, 0, 0, 0)
    {
      FacesAreVisited(p, k, c);
    }
  }

  lemma NextFaceRow(p: Case, k: nat, u: seq<real>, u0: seq<real>, x: seq<real>, jy: int, jz: int)
    requires p.Valid() && k < 3 && |u| == |u0| == |x| == p.Dim().Size()
    requires CorrectionSoFar(p, k, u, u0, x, Faces(p, k).mx, jy, jz)
    ensures CorrectionSoFar(p, k, u, u0, x, 0, jy + 1, jz)
  {
    hide At, CorrectedAt;
    forall c: Index | p.Dim().Has(c.x, c.y, c.z) && p.IsFace(k, c)
      ensures Before(c.x - p.g.stm, c.y - p.g.stm, c.z - p.g.stm, Faces(p, k).mx, jy, jz) <==>
              Before(c.x - p.g.stm, c.y - p.g.stm, c.z - p.g.stm, 0, jy + 1, jz)
    {
      FacesAreVisited(p, k, c);
    }
  }

  lemma NextFacePlane(p: Case, k: nat, u: seq<real>, u0: seq<real>, x: seq<real>, jz: int)
    requires p.Valid() && k < 3 && |u| == |u0| == |x| == p.Dim().Size()
    requires CorrectionSoFar(p, k, u, u0, x, 0, Faces(p, k).my, jz)
    ensures CorrectionSoFar(p, k, u, u0, x, 0, 0, jz + 1)
  {
    hide At, CorrectedAt;
    forall c: Index | p.Dim().Has(c.x, c.y, c.z) && p.IsFace(k, c)
      ensures Before(c.x - p.g.stm, c.y - p.g.stm, c.z - p.g.stm, 0, Faces(p, k).my, jz) <==>
              Before(c.x - p.g.stm, c.y - p.g.stm, c.z - p.g.stm, 0, 0, jz + 1)
    {
      FacesAreVisited(p, k, c);
    }
  }

  lemma AllCorrectedOnAxis(p: Case, k: nat, u: seq<real>, u0: seq<real>, x: seq<real>)
    requires p.Valid() && k < 3 && |u| == |u0| == |x| == p.Dim().Size()
    requires CorrectionSoFar(p, k, u, u0, x, 0, 0, Faces(p, k).mz)
    ensures Corrected(p, k, u0, u, x)
    ensures forall c: Index | p.Dim().Has(c.x, c.y, c.z) && !p.IsFace(k, c) :: At(u, p.Dim(), c) == At(u0, p.Dim(), c)
  {
    hide At, CorrectedAt;
    forall c: Index | p.IsFace(k, c)
      ensures p.Dim().Has(c.x, c.y, c.z) && At(u, p.Dim(), c) == CorrectedAt(p, k, c, u0, x)
    {
      FaceCells(p, k, c);
      FacesAreVisited(p, k, c);
    }
  }

  /** The body of the loop nest. */
  method CorrectFace(p: Case, k: nat, u: array<real>, x: array<real>, jx: nat, jy: nat, jz: nat, ghost u0: seq<real>)
    requires p.Valid() && k < 3 && u != x && u.Length == x.Length == |u0| == p.Dim().Size()
    requires Faces(p, k).Has(jx, jy, jz) && CorrectionSoFar(p, k, u[..], u0, x[..], jx, jy, jz)
    modifies u
    ensures CorrectionSoFar(p, k, u[..], u0, x[..], jx + 1, jy, jz)
  {
    hide Addr, CorrectionSoFar, Stride, DensitySum, CorrectedAt, Dims.Size;
    var d := p.Dim();
    ghost var c := p.g.Padded(jx, jy, jz);
    FacesAreVisited(p, k, c);
    StrideIsStep(d, c, k);
    var j := Addr(d, jx + p.g.stm, jy + p.g.stm, jz + p.g.stm);
    var i := j - Stride(d, k);
    CorrectionIs(p, k, c, u[..], x[..], j, i);
    var epC, epN := p.eps[j], p.eps[i];
    if epC <= 0.0 {
      epC := epN;
    } else if epN <= 0.0 {
      epN := epC;
    }
    epC := Min(epC, epN);
    if epC <= 0.0 {
      epC := 1.0;
    }
    StillOld(p, k, u[..], u0, x[..], jx, jy, jz);
    SameCorrection(p, k, u[..], u0, x[..], c);
    var uj := u[j] - epC * 2.0 / (p.dens[j] + p.dens[i]) * (x[j] - x[i]) * p.di[k] * p.dt;
    CorrectionStep(p, k, u[..], u0, x[..], jx, jy, jz, uj);
    u[j] := uj;
  }

  /** The correction in terms of the two positions it reads. */
  lemma CorrectionIs(p: Case, k: nat, c: Index, u: seq<real>, x: seq<real>, j: int, i: int)
    requires p.Valid() && k < 3 && p.IsFace(k, c) && |u| == |x| == p.Dim().Size()
    requires j == Addr(p.Dim(), c.x, c.y, c.z) && i == Addr(p.Dim(), Prev(c, k).x, Prev(c, k).y, Prev(c, k).z)
    ensures 0 <= j < |u| && 0 <= i < |u| && p.dens[j] + p.dens[i] > 0.0
    ensures CorrectedAt(p, k, c, u, x) ==
            u[j] - CorrectionEps(p.eps[j], p.eps[i]) * 2.0 / (p.dens[j] + p.dens[i]) * (x[j] - x[i]) * p.di[k] * p.dt
  {
    hide Addr, CorrectionEps, Dims.Size;
    FaceCells(p, k, c);
    assert p.dens[j] + p.dens[i] == DensitySum(p, k, c);
    assert FaceEps(p, k, c) == CorrectionEps(p.eps[j], p.eps[i]);
    assert Jump(p, k, c, x) == x[j] - x[i];
  }

  lemma SameCorrection(p: Case, k: nat, u: seq<real>, u0: seq<real>, x: seq<real>, c: Index)
    requires p.Valid() && k < 3 && p.IsFace(k, c) && |u| == |u0| == |x| == p.Dim().Size()
    requires p.Dim().Has(c.x, c.y, c.z) && At(u, p.Dim(), c) == At(u0, p.Dim(), c)
    ensures CorrectedAt(p, k, c, u, x) == CorrectedAt(p, k, c, u0, x)
  {
    hide Addr, Drop, FaceEps, DensitySum, Jump, At;
  }

  lemma StillOld(p: Case, k: nat, u: seq<real>, u0: seq<real>, x: seq<real>, jx: nat, jy: nat, jz: nat)
    requires p.Valid() && k < 3 && |u| == |u0| == |x| == p.Dim().Size() && Faces(p, k).Has(jx, jy, jz)
    requires CorrectionSoFar(p, k, u, u0, x, jx, jy, jz)
    ensures var c := p.g.Padded(jx, jy, jz); p.Dim().Has(c.x, c.y, c.z) && At(u, p.Dim(), c) == At(u0, p.Dim(), c)
  {
    hide Addr, CorrectedAt;
    FacesAreVisited(p, k, p.g.Padded(jx, jy, jz));
  }

  lemma CorrectionStep(p: Case, k: nat, u: seq<real>, u0: seq<real>, x: seq<real>, jx: nat, jy: nat, jz: nat, uj: real)
    requires p.Valid() && k < 3 && |u| == |u0| == |x| == p.Dim().Size() && Faces(p, k).Has(jx, jy, jz)
    requires CorrectionSoFar(p, k, u, u0, x, jx, jy, jz)
    requires p.IsFace(k, p.g.Padded(jx, jy, jz)) && uj == CorrectedAt(p, k, p.g.Padded(jx, jy, jz), u0, x)
    ensures var c := p.g.Padded(jx, jy, jz); p.Dim().Has(c.x, c.y, c.z)
    ensures CorrectionSoFar(p, k, u[Addr(p.Dim(), jx + p.g.stm, jy + p.g.stm, jz + p.g.stm) := uj], u0, x, jx + 1, jy,
            jz)
  {
    hide Addr, CorrectedAt, At, Before, Case.IsFace;
    var d, e := p.Dim(), p.g.Padded(jx, jy, jz);
    FaceCells(p, k, e);
    var u' := u[Addr(d, e.x, e.y, e.z) := uj];
    forall c: Index | d.Has(c.x, c.y, c.z)
      ensures At(u', d, c) ==
              if p.IsFace(k, c) && Before(c.x - p.g.stm, c.y - p.g.stm, c.z - p.g.stm, jx + 1, jy,
                  jz) then CorrectedAt(p, k, c, u0, x)
              else At(u0, d, c)
    {
      StoreAt(u, d, e, uj, c);
      BeforeNext(c.x - p.g.stm, c.y - p.g.stm, c.z - p.g.stm, jx, jy, jz);
    }
  }

  /** vel_correction. */
  method VelCorrection(p: Case, u: array<real>, v: array<real>, w: array<real>, x: array<real>)
    requires p.Valid() && x !in {u, v, w} && u != v && v != w && u != w
    requires u.Length == v.Length == w.Length == x.Length == p.Dim().Size()
    modifies u, v, w
    ensures AllCorrected(p, old([w[..], v[..], u[..]]), [w[..], v[..], u[..]], x[..])
  {
    hide Corrected, At;
    CorrectAxis(p, 2, u, x);
    CorrectAxis(p, 1, v, x);
    CorrectAxis(p, 0, w, x);
  }
}
