/**
 MatVec_BJ_pre (jupiter/cacg.c, 123-304): r = A x and, in place, a forward and a backward sweep
 over s inside each thread's slab of z planes.
 */
module BlockPreconditioner {
  import opened Layout

  /** nx * ny * nz cells at offset (sx, sm, sm) of arrays with extents d; A holds seven planes of coefficients. */
  datatype System = System(d: Dims, sx: nat, sm: nat, nx: nat, ny: nat, nz: nat, A: seq<real>, Dinv: seq<real>,
      x: seq<real>) {

    ghost predicate Valid() {
      && sx >= 1 && sm >= 1 && nx >= 1 && ny >= 1
      && nx + sx < d.mx && ny + sm < d.my && nz + sm < d.mz
      && |A| == 7 * d.Size() && |Dinv| == |x| == d.Size()
    }

    predicate IsCell(jx: int, jy: int, jz: int) {
      0 <= jx < nx && 0 <= jy < ny && 0 <= jz < nz
    }

    /** The position of a cell or of a cell next to one. */
    function J(jx: int, jy: int, jz: int): (j: int)
      requires Valid()
      ensures -1 <= jx <= nx && -1 <= jy <= ny && -1 <= jz <= nz ==> 0 <= j < d.Size()
    {
      Addr(d, jx + sx, jy + sm, jz + sm)
    }

    /** The k-th coefficient at position j, A[j + k * m]. */
    function At(k: nat, j: int): real
      requires Valid() && 0 <= j < d.Size() && k < 7
    {
      PlaneBound(d.Size(), j, k);
      A[j + k * d.Size()]
    }

    function C(k: nat, jx: int, jy: int, jz: int): real
      requires Valid() && IsCell(jx, jy, jz) && k < 7
    {
      At(k, J(jx, jy, jz))
    }

    function Inverse(jx: int, jy: int, jz: int): real
      requires Valid() && IsCell(jx, jy, jz)
    {
      Dinv[J(jx, jy, jz)]
    }

    /** The k-th coefficient at position j times the value of x at position i. */
    function Term(k: nat, j: int, i: int): real
      requires Valid() && 0 <= j < d.Size() && 0 <= i < d.Size() && k < 7
    {
      At(k, j) * x[i]
    }

    /** A x at a cell. */
    function Ax(jx: int, jy: int, jz: int): real
      requires Valid() && IsCell(jx, jy, jz)
    {
      var j := J(jx, jy, jz);
      Term(0, j, J(jx, jy, jz - 1)) + Term(1, j, J(jx, jy - 1, jz)) + Term(2, j, J(jx - 1, jy, jz)) + Term(3, j, j) +
      Term(4, j, J(jx + 1, jy, jz)) + Term(5, j, J(jx, jy + 1, jz)) + Term(6, j, J(jx, jy, jz + 1))
    }
  }

  /** The planes of one thread: at least one. */
  datatype Slab = Slab(zs: nat, ze: nat)

  predicate IsSlab(p: System, b: Slab) {
    b.zs <= b.ze < p.nz
  }

  /** The parts of a row of A below and above the diagonal, applied to the neighbours' values. */
  function LowerRow(p: System, jx: nat, jy: nat, jz: nat, south: real, bottom: real, west: real): real
    requires p.Valid() && p.IsCell(jx, jy, jz)
  {
    p.C(1, jx, jy, jz) * south + p.C(0, jx, jy, jz) * bottom + p.C(2, jx, jy, jz) * west
  }

  function UpperRow(p: System, jx: nat, jy: nat, jz: nat, north: real, top: real, east: real): real
    requires p.Valid() && p.IsCell(jx, jy, jz)
  {
    p.C(4, jx, jy, jz) * east + (p.C(5, jx, jy, jz) * north + p.C(6, jx, jy, jz) * top)
  }

  /** A new value in the forward and in the backward sweep. */
  function SweepUp(p: System, jx: nat, jy: nat, jz: nat, lower: real): real
    requires p.Valid() && p.IsCell(jx, jy, jz)
  {
    (p.Ax(jx, jy, jz) - lower) * p.Inverse(jx, jy, jz)
  }

  function SweepDown(p: System, jx: nat, jy: nat, jz: nat, here: real, upper: real): real
    requires p.Valid() && p.IsCell(jx, jy, jz)
  {
    here - upper * p.Inverse(jx, jy, jz)
  }

  ghost predicate InSlab(p: System, b: Slab, jx: int, jy: int, jz: int) {
    p.Valid() && IsSlab(p, b) && p.IsCell(jx, jy, jz) && b.zs <= jz <= b.ze
  }

  /** What the forward sweep leaves in a cell, by recursion on the cells it reads. */
  ghost function Forward(p: System, b: Slab, s0: seq<real>, jx: nat, jy: nat, jz: nat): real
    requires InSlab(p, b, jx, jy, jz) && |s0| == p.d.Size()
    decreases jz, jy, jx
  {
    var south := if jy == 0 then s0[p.J(jx, -1, jz)] else Forward(p, b, s0, jx, jy - 1, jz);
    var bottom := if jz == b.zs then 0.0 else Forward(p, b, s0, jx, jy, jz - 1);
    var west := if jx == 0 then 0.0 else Forward(p, b, s0, jx - 1, jy, jz);
    SweepUp(p, jx, jy, jz, LowerRow(p, jx, jy, jz, south, bottom, west))
  }

  /** What the backward sweep leaves in a cell. */
  ghost function Backward(p: System, b: Slab, s0: seq<real>, jx: nat, jy: nat, jz: nat): real
    requires InSlab(p, b, jx, jy, jz) && |s0| == p.d.Size()
    decreases b.ze - jz, p.ny - jy, p.nx - jx
  {
    var north := if jy == p.ny - 1 then s0[p.J(jx, p.ny, jz)] else Backward(p, b, s0, jx, jy + 1, jz);
    var top := if jz == b.ze then 0.0 else Backward(p, b, s0, jx, jy, jz + 1);
    var east := if jx == p.nx - 1 then 0.0 else Backward(p, b, s0, jx + 1, jy, jz);
    SweepDown(p, jx, jy, jz, Forward(p, b, s0, jx, jy, jz), UpperRow(p, jx, jy, jz, north, top, east))
  }

  /** One row of the forward sweep, computed from the array as it is. */
  ghost function ForwardRowAt(p: System, b: Slab, s: seq<real>, jx: nat, jy: nat, jz: nat): real
    requires InSlab(p, b, jx, jy, jz) && |s| == p.d.Size()
    decreases jx
  {
    var bottom := if jz == b.zs then 0.0 else s[p.J(jx, jy, jz - 1)];
    var west := if jx == 0 then 0.0 else ForwardRowAt(p, b, s, jx - 1, jy, jz);
    SweepUp(p, jx, jy, jz, LowerRow(p, jx, jy, jz, s[p.J(jx, jy - 1, jz)], bottom, west))
  }

  /** One row of the backward sweep. */
  ghost function BackwardRowAt(p: System, b: Slab, s: seq<real>, jx: nat, jy: nat, jz: nat): real
    requires InSlab(p, b, jx, jy, jz) && |s| == p.d.Size()
    decreases p.nx - jx
  {
    var top := if jz == b.ze then 0.0 else s[p.J(jx, jy, jz + 1)];
    var east := if jx == p.nx - 1 then 0.0 else BackwardRowAt(p, b, s, jx + 1, jy, jz);
    SweepDown(p, jx, jy, jz, s[p.J(jx, jy, jz)], UpperRow(p, jx, jy, jz, s[p.J(jx, jy + 1, jz)], top, east))
  }

  /** Where a thread stands: the next row it will sweep. */
  datatype Place = Up(z: nat, y: nat) | Down(z: nat, y: nat) | Done

  predicate IsPlace(p: System, b: Slab, w: Place) {
    w.Done? || (b.zs <= w.z <= b.ze && w.y < p.ny)
  }

  function NextPlace(p: System, b: Slab, w: Place): (w': Place)
    requires p.Valid() && IsSlab(p, b) && IsPlace(p, b, w)
    ensures IsPlace(p, b, w')
  {
    match w
    case Up(z, y) => if y + 1 < p.ny then Up(z, y + 1) else if z < b.ze then Up(z + 1, 0) else Down(b.ze, p.ny - 1)
    case Down(z, y) => if y > 0 then Down(z, y - 1) else if z > b.zs then Down(z - 1, p.ny - 1) else Done
    case Done => Done
  }

  /** The value a cell of the slab has when its thread stands at w. */
  ghost function Value(p: System, b: Slab, s0: seq<real>, w: Place, jx: nat, jy: nat, jz: nat): real
    requires InSlab(p, b, jx, jy, jz) && |s0| == p.d.Size()
  {
    match w
    case Up(z, y) => if jz < z || (jz == z && jy < y) then Forward(p, b, s0, jx, jy, jz) else s0[p.J(jx, jy, jz)]
    case Down(z, y) => if jz > z || (jz == z && jy > y) then Backward(p, b, s0, jx, jy, jz)
        else Forward(p, b, s0, jx, jy, jz)
    case Done => Backward(p, b, s0, jx, jy, jz)
  }

  /** The slab holds what its thread has computed so far, and the rows beside it are as they were. */
  ghost predicate Progress(p: System, b: Slab, s0: seq<real>, w: Place, s: seq<real>)
    requires p.Valid() && |s0| == |s| == p.d.Size() && IsSlab(p, b)
  {
    && (forall jx: nat, jy: nat, jz: nat | InSlab(p, b, jx, jy, jz) ::
          s[p.J(jx, jy, jz)] == Value(p, b, s0, w, jx, jy, jz))
    && (forall jx: nat, jz: nat | jx < p.nx && b.zs <= jz <= b.ze ::
          s[p.J(jx, -1, jz)] == s0[p.J(jx, -1, jz)] && s[p.J(jx, p.ny, jz)] == s0[p.J(jx, p.ny, jz)])
  }

  /** s' is s with row (jy, jz) replaced by the row at w. */
  ghost predicate RowSwept(p: System, b: Slab, w: Place, s: seq<real>, s': seq<real>)
    requires p.Valid() && |s| == |s'| == p.d.Size() && IsSlab(p, b) && IsPlace(p, b, w) && !w.Done?
  {
    && (forall jx: nat | jx < p.nx ::
          s'[p.J(jx, w.y, w.z)] ==
          if w.Up? then ForwardRowAt(p, b, s, jx, w.y, w.z) else BackwardRowAt(p, b, s, jx, w.y, w.z))
    && SameBeside(p, w.y, w.z, s, s')
  }

  /** Nothing but the row (jy, jz) changed. */
  ghost predicate SameBeside(p: System, jy: nat, jz: nat, s: seq<real>, s': seq<real>)
    requires p.Valid() && |s| == |s'|
  {
    forall a | 0 <= a < |s| && !(p.J(0, jy, jz) <= a < p.J(0, jy, jz) + p.nx) :: s'[a] == s[a]
  }

  /** Positions of different cells differ, also of those next to the domain. */
  lemma Apart(p: System, jx: int, jy: int, jz: int, kx: int, ky: int, kz: int)
    requires p.Valid()
    requires -1 <= jx <= p.nx && -1 <= jy <= p.ny && -1 <= jz <= p.nz
    requires -1 <= kx <= p.nx && -1 <= ky <= p.ny && -1 <= kz <= p.nz
    requires jx != kx || jy != ky || jz != kz
    ensures p.J(jx, jy, jz) != p.J(kx, ky, kz)
  {
    AddrInjective(p.d, jx + p.sx, jy + p.sm, jz + p.sm, kx + p.sx, ky + p.sm, kz + p.sm);
  }

  lemma {:induction false} ForwardRowIs(p: System, b: Slab, s0: seq<real>, s: seq<real>, jx: nat, jy: nat, jz: nat)
    requires InSlab(p, b, jx, jy, jz) && |s0| == |s| == p.d.Size()
    requires Progress(p, b, s0, Up(jz, jy), s)
    ensures ForwardRowAt(p, b, s, jx, jy, jz) == Forward(p, b, s0, jx, jy, jz)
  {
    hide System.J, SweepUp, LowerRow;
    if jx > 0 {
      ForwardRowIs(p, b, s0, s, jx - 1, jy, jz);
    }
    assert s[p.J(jx, jy - 1, jz)] == if jy == 0 then s0[p.J(jx, -1, jz)] else Forward(p, b, s0, jx, jy - 1, jz);
    if jz > b.zs {
      assert s[p.J(jx, jy, jz - 1)] == Forward(p, b, s0, jx, jy, jz - 1);
    }
  }

  lemma {:induction false} BackwardRowIs(p: System, b: Slab, s0: seq<real>, s: seq<real>, jx: nat, jy: nat, jz: nat)
    requires InSlab(p, b, jx, jy, jz) && |s0| == |s| == p.d.Size()
    requires Progress(p, b, s0, Down(jz, jy), s)
    ensures BackwardRowAt(p, b, s, jx, jy, jz) == Backward(p, b, s0, jx, jy, jz)
    decreases p.nx - jx
  {
    hide System.J, SweepDown, UpperRow, Forward;
    if jx < p.nx - 1 {
      BackwardRowIs(p, b, s0, s, jx + 1, jy, jz);
    }
    assert s[p.J(jx, jy, jz)] == Forward(p, b, s0, jx, jy, jz);
    assert s[p.J(jx, jy + 1, jz)] == if jy == p.ny - 1 then s0[p.J(jx, p.ny, jz)]
        else Backward(p, b, s0, jx, jy + 1, jz);
    if jz < b.ze {
      assert s[p.J(jx, jy, jz + 1)] == Backward(p, b, s0, jx, jy, jz + 1);
    }
  }

  /** Sweeping the next row advances a thread's slab. */
  lemma RowAdvances(p: System, b: Slab, s0: seq<real>, w: Place, s: seq<real>, s': seq<real>)
    requires p.Valid() && |s0| == |s| == |s'| == p.d.Size() && IsSlab(p, b) && IsPlace(p, b, w) && !w.Done?
    requires Progress(p, b, s0, w, s) && RowSwept(p, b, w, s, s')
    ensures Progress(p, b, s0, NextPlace(p, b, w), s')
  {
    hide System.J, Forward, Backward, ForwardRowAt, BackwardRowAt;
    forall jx: nat, jy: nat, jz: nat | InSlab(p, b, jx, jy, jz)
      ensures s'[p.J(jx, jy, jz)] == Value(p, b, s0, NextPlace(p, b, w), jx, jy, jz)
    {
      if jy == w.y && jz == w.z {
        if w.Up? {
          ForwardRowIs(p, b, s0, s, jx, jy, jz);
        } else {
          BackwardRowIs(p, b, s0, s, jx, jy, jz);
        }
      } else {
        OffRow(p, b, w, s, s', jx, jy, jz);
      }
    }
    forall jx: nat, jz: nat | jx < p.nx && b.zs <= jz <= b.ze
      ensures s'[p.J(jx, -1, jz)] == s0[p.J(jx, -1, jz)] && s'[p.J(jx, p.ny, jz)] == s0[p.J(jx, p.ny, jz)]
    {
      OffRow(p, b, w, s, s', jx, -1, jz);
      OffRow(p, b, w, s, s', jx, p.ny, jz);
    }
  }

  lemma OffRow(p: System, b: Slab, w: Place, s: seq<real>, s': seq<real>, jx: int, jy: int, jz: int)
    requires p.Valid() && |s| == |s'| == p.d.Size() && IsSlab(p, b) && IsPlace(p, b, w) && !w.Done?
    requires RowSwept(p, b, w, s, s')
    requires 0 <= jx < p.nx && -1 <= jy <= p.ny && 0 <= jz < p.nz && (jy != w.y || jz != w.z)
    ensures s'[p.J(jx, jy, jz)] == s[p.J(jx, jy, jz)]
  {
    hide System.J, ForwardRowAt, BackwardRowAt;
    OffInterval(p, w.y, w.z, jx, jy, jz);
  }

  lemma OffInterval(p: System, y: nat, z: nat, jx: int, jy: int, jz: int)
    requires p.Valid() && y < p.ny && z < p.nz
    requires 0 <= jx < p.nx && -1 <= jy <= p.ny && 0 <= jz < p.nz && (jy != y || jz != z)
    ensures !(p.J(0, y, z) <= p.J(jx, jy, jz) < p.J(0, y, z) + p.nx)
  {
    hide System.J;
    var k := p.J(jx, jy, jz) - p.J(0, y, z);
    if 0 <= k < p.nx {
      NearX(p, k, y, z);
      Apart(p, jx, jy, jz, k, y, z);
    }
  }

  /** A row swept in another slab leaves a thread's slab alone: no thread reads or writes s outside its own. */
  lemma OthersUnaffected(p: System, b: Slab, s0: seq<real>, w: Place, o: Slab, v: Place, s: seq<real>, s': seq<real>)
    requires p.Valid() && |s0| == |s| == |s'| == p.d.Size() && IsSlab(p, b) && IsSlab(p, o) && IsPlace(p, o, v)
    requires !v.Done?
    requires o.ze < b.zs || b.ze < o.zs
    requires Progress(p, b, s0, w, s) && RowSwept(p, o, v, s, s')
    ensures Progress(p, b, s0, w, s')
  {
    hide System.J, Value, ForwardRowAt, BackwardRowAt;
    forall jx: nat, jy: nat, jz: nat | InSlab(p, b, jx, jy, jz)
      ensures s'[p.J(jx, jy, jz)] == Value(p, b, s0, w, jx, jy, jz)
    {
      OffRow(p, o, v, s, s', jx, jy, jz);
    }
    forall jx: nat, jz: nat | jx < p.nx && b.zs <= jz <= b.ze
      ensures s'[p.J(jx, -1, jz)] == s0[p.J(jx, -1, jz)] && s'[p.J(jx, p.ny, jz)] == s0[p.J(jx, p.ny, jz)]
    {
      OffRow(p, o, v, s, s', jx, -1, jz);
      OffRow(p, o, v, s, s', jx, p.ny, jz);
    }
  }

  /** The threads' slabs, and the shared array with every thread's place. */
  ghost predicate Slabs(p: System, bs: seq<Slab>) {
    && (forall t | 0 <= t < |bs| :: IsSlab(p, bs[t]))
    && (forall t, u | 0 <= t < u < |bs| :: bs[t].ze < bs[u].zs)
  }

  datatype World = World(s: seq<real>, at: seq<Place>)

  ghost predicate WorldFits(p: System, bs: seq<Slab>, m: World) {
    |m.s| == p.d.Size() && |m.at| == |bs| && forall t | 0 <= t < |bs| :: IsPlace(p, bs[t], m.at[t])
  }

  function Start(bs: seq<Slab>, s0: seq<real>): World {
    World(s0, seq(|bs|, (t: nat) requires t < |bs| => Up(bs[t].zs, 0)))
  }

  /** Thread t sweeps its next row while the others stand still. */
  ghost predicate ThreadStep(p: System, bs: seq<Slab>, m: World, m': World, t: nat)
    requires p.Valid() && Slabs(p, bs) && WorldFits(p, bs, m)
  {
    && t < |bs| && !m.at[t].Done? && |m'.s| == |m.s|
    && RowSwept(p, bs[t], m.at[t], m.s, m'.s)
    && m'.at == m.at[t := NextPlace(p, bs[t], m.at[t])]
  }

  ghost predicate AllProgress(p: System, bs: seq<Slab>, s0: seq<real>, m: World)
    requires p.Valid() && Slabs(p, bs) && |s0| == p.d.Size()
  {
    WorldFits(p, bs, m) && forall t | 0 <= t < |bs| :: Progress(p, bs[t], s0, m.at[t], m.s)
  }

  lemma StepKeepsProgress(p: System, bs: seq<Slab>, s0: seq<real>, m: World, m': World, t: nat)
    requires p.Valid() && Slabs(p, bs) && |s0| == p.d.Size()
    requires AllProgress(p, bs, s0, m) && ThreadStep(p, bs, m, m', t)
    ensures AllProgress(p, bs, s0, m')
  {
    hide Progress, RowSwept, NextPlace;
    forall u | 0 <= u < |bs|
      ensures Progress(p, bs[u], s0, m'.at[u], m'.s)
    {
      if u == t {
        RowAdvances(p, bs[t], s0, m.at[t], m.s, m'.s);
      } else {
        assert bs[t].ze < bs[u].zs || bs[u].ze < bs[t].zs;
        OthersUnaffected(p, bs[u], s0, m.at[u], bs[t], m.at[t], m.s, m'.s);
      }
    }
  }

  ghost predicate SomeStep(p: System, bs: seq<Slab>, m: World, m': World)
    requires p.Valid() && Slabs(p, bs) && WorldFits(p, bs, m)
  {
    exists t: nat :: ThreadStep(p, bs, m, m', t)
  }

  ghost predicate AllDone(m: World) {
    forall u | 0 <= u < |m.at| :: m.at[u].Done?
  }

  /** A run: any interleaving of the threads' rows. */
  ghost predicate IsRun(p: System, bs: seq<Slab>, s0: seq<real>, run: seq<World>)
    requires p.Valid() && Slabs(p, bs)
  {
    && |run| > 0 && run[0] == Start(bs, s0)
    && (forall i | 0 <= i < |run| :: WorldFits(p, bs, run[i]))
    && (forall i, j | 0 <= i && j == i + 1 && j < |run| :: SomeStep(p, bs, run[i], run[j]))
  }

  lemma {:induction false} RunProgress(p: System, bs: seq<Slab>, s0: seq<real>, run: seq<World>, i: nat)
    requires p.Valid() && Slabs(p, bs) && |s0| == p.d.Size() && IsRun(p, bs, s0, run) && i < |run|
    ensures AllProgress(p, bs, s0, run[i])
  {
    hide AllProgress, SomeStep, Start, System.Valid, Slabs, WorldFits, Dims.Size;
    if i == 0 {
      StartProgress(p, bs, s0);
    } else {
      RunProgress(p, bs, s0, run, i - 1);
      SomeStepKeeps(p, bs, s0, run[i - 1], run[i]);
    }
  }

  lemma SomeStepKeeps(p: System, bs: seq<Slab>, s0: seq<real>, m: World, m': World)
    requires p.Valid() && Slabs(p, bs) && |s0| == p.d.Size()
    requires AllProgress(p, bs, s0, m) && SomeStep(p, bs, m, m')
    ensures AllProgress(p, bs, s0, m')
  {
    hide System.Valid, Slabs, Dims.Size, Progress, ThreadStep, WorldFits;
    var t: nat :| ThreadStep(p, bs, m, m', t);
    StepKeepsProgress(p, bs, s0, m, m', t);
  }

  lemma StartProgress(p: System, bs: seq<Slab>, s0: seq<real>)
    requires p.Valid() && Slabs(p, bs) && |s0| == p.d.Size()
    ensures AllProgress(p, bs, s0, Start(bs, s0))
  {
    hide System.J, Forward;
  }

  /** Whatever the interleaving, a complete run leaves in every slab what its own two sweeps compute. */
  lemma InterleavingDoesNotMatter(p: System, bs: seq<Slab>, s0: seq<real>, run: seq<World>, last: nat, t: nat)
    requires p.Valid() && Slabs(p, bs) && |s0| == p.d.Size() && t < |bs|
    requires IsRun(p, bs, s0, run) && last < |run| && AllDone(run[last])
    ensures |run[last].s| == p.d.Size() && Progress(p, bs[t], s0, Done, run[last].s)
  {
    hide IsRun, Progress;
    RunProgress(p, bs, s0, run, last);
  }

  /** The part of a row of A above the diagonal that stays inside the slab, applied to s. */
  ghost function Upper(p: System, b: Slab, s: seq<real>, jx: nat, jy: nat, jz: nat): real
    requires InSlab(p, b, jx, jy, jz) && |s| == p.d.Size()
  {
    var top := if jz == b.ze then 0.0 else s[p.J(jx, jy, jz + 1)];
    var east := if jx == p.nx - 1 then 0.0 else s[p.J(jx + 1, jy, jz)];
    UpperRow(p, jx, jy, jz, s[p.J(jx, jy + 1, jz)], top, east)
  }

  /** D^-1 (D + U) s. */
  ghost function Half(p: System, b: Slab, s: seq<real>, jx: nat, jy: nat, jz: nat): real
    requires InSlab(p, b, jx, jy, jz) && |s| == p.d.Size()
  {
    s[p.J(jx, jy, jz)] + Upper(p, b, s, jx, jy, jz) * p.Inverse(jx, jy, jz)
  }

  /**
   The part of a row of A below the diagonal that stays inside the slab, applied to that; below row
   0 s itself counts.
   */
  ghost function Lower(p: System, b: Slab, s: seq<real>, jx: nat, jy: nat, jz: nat): real
    requires InSlab(p, b, jx, jy, jz) && |s| == p.d.Size()
  {
    var south := if jy == 0 then s[p.J(jx, -1, jz)] else Half(p, b, s, jx, jy - 1, jz);
    var bottom := if jz == b.zs then 0.0 else Half(p, b, s, jx, jy, jz - 1);
    var west := if jx == 0 then 0.0 else Half(p, b, s, jx - 1, jy, jz);
    LowerRow(p, jx, jy, jz, south, bottom, west)
  }

  /** After both sweeps a slab's cells hold the backward values. */
  lemma Final(p: System, b: Slab, s0: seq<real>, s: seq<real>, jx: nat, jy: nat, jz: nat)
    requires InSlab(p, b, jx, jy, jz) && |s0| == |s| == p.d.Size() && Progress(p, b, s0, Done, s)
    ensures s[p.J(jx, jy, jz)] == Backward(p, b, s0, jx, jy, jz)
  {
    hide System.J, Backward;
  }

  /** The rows beside the domain are left alone. */
  lemma BesideKept(p: System, b: Slab, s0: seq<real>, s: seq<real>, jx: nat, jz: nat)
    requires p.Valid() && IsSlab(p, b) && |s0| == |s| == p.d.Size() && Progress(p, b, s0, Done, s)
    requires jx < p.nx && b.zs <= jz <= b.ze
    ensures s[p.J(jx, -1, jz)] == s0[p.J(jx, -1, jz)] && s[p.J(jx, p.ny, jz)] == s0[p.J(jx, p.ny, jz)]
  {
  }

  /** So what lies above a cell is what its backward value was computed from. */
  lemma UpperIs(p: System, b: Slab, s0: seq<real>, s: seq<real>, jx: nat, jy: nat, jz: nat)
    requires InSlab(p, b, jx, jy, jz) && |s0| == |s| == p.d.Size() && Progress(p, b, s0, Done, s)
    ensures Backward(p, b, s0, jx, jy, jz) ==
            SweepDown(p, jx, jy, jz, Forward(p, b, s0, jx, jy, jz), Upper(p, b, s, jx, jy, jz))
  {
    hide System.J, SweepDown, UpperRow, Forward, Dims.Size, System.C, Progress;
    if jy == p.ny - 1 {
      BesideKept(p, b, s0, s, jx, jz);
    } else {
      Final(p, b, s0, s, jx, jy + 1, jz);
    }
    if jx < p.nx - 1 {
      Final(p, b, s0, s, jx + 1, jy, jz);
    }
    if jz < b.ze {
      Final(p, b, s0, s, jx, jy, jz + 1);
    }
  }

  /** After both sweeps D^-1 (D + U) s is what the forward sweep had left. */
  lemma HalfIsForward(p: System, b: Slab, s0: seq<real>, s: seq<real>, jx: nat, jy: nat, jz: nat)
    requires InSlab(p, b, jx, jy, jz) && |s0| == |s| == p.d.Size()
    requires Progress(p, b, s0, Done, s)
    ensures Half(p, b, s, jx, jy, jz) == Forward(p, b, s0, jx, jy, jz)
  {
    hide System.J, System.Inverse, Upper, Forward, Backward, Progress, Dims.Size;
    Final(p, b, s0, s, jx, jy, jz);
    UpperIs(p, b, s0, s, jx, jy, jz);
  }

  /**
   The two sweeps solve (D + L) D^-1 (D + U) s = A x inside the slab.  The rows of s beside the
   domain count as given values; with zeros there the equation is the slab's own.
   */
  lemma SweepsSolve(p: System, b: Slab, s0: seq<real>, s: seq<real>, jx: nat, jy: nat, jz: nat)
    requires InSlab(p, b, jx, jy, jz) && |s0| == |s| == p.d.Size()
    requires Progress(p, b, s0, Done, s)
    ensures Half(p, b, s, jx, jy, jz) == (p.Ax(jx, jy, jz) - Lower(p, b, s, jx, jy, jz)) * p.Inverse(jx, jy, jz)
    ensures p.Inverse(jx, jy, jz) != 0.0 ==>
              Half(p, b, s, jx, jy, jz) / p.Inverse(jx, jy, jz) + Lower(p, b, s, jx, jy, jz) == p.Ax(jx, jy, jz)
  {
    hide System.J, System.Ax, System.Inverse, LowerRow, Half, SweepUp, Progress, Dims.Size;
    HalfIsForward(p, b, s0, s, jx, jy, jz);
    if jy > 0 {
      HalfIsForward(p, b, s0, s, jx, jy - 1, jz);
    } else {
      BesideKept(p, b, s0, s, jx, jz);
    }
    if jz > b.zs {
      HalfIsForward(p, b, s0, s, jx, jy, jz - 1);
    }
    if jx > 0 {
      HalfIsForward(p, b, s0, s, jx - 1, jy, jz);
    }
    assert Half(p, b, s, jx, jy, jz) == SweepUp(p, jx, jy, jz, Lower(p, b, s, jx, jy, jz));
    UpRule(p, jx, jy, jz, Half(p, b, s, jx, jy, jz), Lower(p, b, s, jx, jy, jz));
  }

  lemma UpRule(p: System, jx: nat, jy: nat, jz: nat, t: real, l: real)
    requires p.Valid() && p.IsCell(jx, jy, jz) && t == SweepUp(p, jx, jy, jz, l)
    ensures t == (p.Ax(jx, jy, jz) - l) * p.Inverse(jx, jy, jz)
    ensures p.Inverse(jx, jy, jz) != 0.0 ==> t / p.Inverse(jx, jy, jz) + l == p.Ax(jx, jy, jz)
  {
    hide System.Ax, System.Inverse;
    DivideBack(t, p.Ax(jx, jy, jz), l, p.Inverse(jx, jy, jz));
  }

  lemma DivideBack(t: real, r: real, l: real, d: real)
    ensures t == (r - l) * d && d != 0.0 ==> t / d + l == r
  {
  }

  /** Where the neighbours of a cell lie. */
  lemma Near(p: System, jx: int, jy: int, jz: int)
    requires p.Valid() && p.IsCell(jx, jy, jz)
    ensures p.J(jx, jy, jz) == p.J(0, jy, jz) + jx
    ensures p.J(jx - 1, jy, jz) == p.J(jx, jy, jz) - 1 && p.J(jx + 1, jy, jz) == p.J(jx, jy, jz) + 1
    ensures p.J(jx, jy - 1, jz) == p.J(jx, jy, jz) - p.d.mx && p.J(jx, jy + 1, jz) == p.J(jx, jy, jz) + p.d.mx
    ensures p.J(jx, jy, jz - 1) == p.J(jx, jy, jz) - p.d.mx * p.d.my
    ensures p.J(jx, jy, jz + 1) == p.J(jx, jy, jz) + p.d.mx * p.d.my
  {
    NearX(p, jx, jy, jz);
    hide Addr;
    ShiftY(p.d, jx + p.sx, jy + p.sm, jz + p.sm);
    ShiftY(p.d, jx + p.sx, jy - 1 + p.sm, jz + p.sm);
    ShiftZ(p.d, jx + p.sx, jy + p.sm, jz + p.sm);
    ShiftZ(p.d, jx + p.sx, jy + p.sm, jz - 1 + p.sm);
  }

  lemma NearX(p: System, jx: int, jy: int, jz: int)
    requires p.Valid()
    ensures p.J(jx, jy, jz) == p.J(0, jy, jz) + jx
    ensures p.J(jx - 1, jy, jz) == p.J(jx, jy, jz) - 1 && p.J(jx + 1, jy, jz) == p.J(jx, jy, jz) + 1
  {
  }

  /** The right-hand side of a row's recurrence. */
  ghost function RightAt(p: System, b: Slab, s: seq<real>, jx: nat, jy: nat, jz: nat): real
    requires InSlab(p, b, jx, jy, jz) && |s| == p.d.Size()
  {
    p.Ax(jx, jy, jz) - (p.C(1, jx, jy, jz) * s[p.J(jx, jy - 1, jz)] +
                        (if jz == b.zs then 0.0 else p.C(0, jx, jy, jz) * s[p.J(jx, jy, jz - 1)]))
  }

  method StencilAt(p: System, j: int, ghost jx: int, ghost jy: int, ghost jz: int) returns (v: real)
    requires p.Valid() && p.IsCell(jx, jy, jz) && j == p.J(jx, jy, jz)
    ensures v == p.Ax(jx, jy, jz)
  {
    hide System.J, System.Term, Dims.Size;
    Near(p, jx, jy, jz);
    var mx, mxy := p.d.mx, p.d.mx * p.d.my;
    v := p.Term(0, j, j - mxy) + p.Term(1, j, j - mx) + p.Term(2, j, j - 1) + p.Term(3, j, j) +
         p.Term(4, j, j + 1) + p.Term(5, j, j + mx) + p.Term(6, j, j + mxy);
  }

  /** r gets A x on the row, and the sums the row's recurrence starts from. */
  method RightRow(p: System, b: Slab, r: array<real>, s: array<real>, jy: nat, jz: nat) returns (sums: array<real>)
    requires p.Valid() && IsSlab(p, b) && jy < p.ny && b.zs <= jz <= b.ze && r != s
    requires r.Length == s.Length == p.d.Size()
    modifies r
    ensures fresh(sums) && sums.Length == p.nx + 1
    ensures forall jx: nat | jx < p.nx ::
            sums[jx] == RightAt(p, b, s[..], jx, jy, jz) && r[p.J(jx, jy, jz)] == p.Ax(jx, jy, jz)
    ensures SameBeside(p, jy, jz, old(r[..]), r[..])
  {
    hide System.J, System.Ax, System.At, Dims.Size, RightAt;
    sums := new real[p.nx + 1];
    var mx, mxy := p.d.mx, p.d.mx * p.d.my;
    var base := p.J(0, jy, jz);
    ghost var before := s[..];
    RowPlaces(p, jy, jz);
    for jx := 0 to p.nx
      invariant s[..] == before
      invariant forall i: nat | i < jx :: sums[i] == RightAt(p, b, before, i, jy, jz) && r[base + i] == p.Ax(i, jy, jz)
      invariant forall a | 0 <= a < r.Length && !(base <= a < base + p.nx) :: r[a] == old(r[a])
    {
      var j := base + jx;
      assert j == p.J(jx, jy, jz);
      RightRing(p, b, before, jx, jy, jz, j);
      r[j] := StencilAt(p, j, jx, jy, jz);
      if jz == b.zs {
        sums[jx] := r[j] - p.At(1, j) * s[j - mx];
      } else {
        sums[jx] := r[j] - (p.At(1, j) * s[j - mx] + p.At(0, j) * s[j - mxy]);
      }
    }
  }

  lemma RowPlaces(p: System, jy: int, jz: int)
    requires p.Valid() && 0 <= jy < p.ny && 0 <= jz < p.nz
    ensures forall i: nat | i < p.nx :: p.J(i, jy, jz) == p.J(0, jy, jz) + i
    ensures 0 <= p.J(0, jy, jz) && p.J(0, jy, jz) + p.nx <= p.d.Size()
  {
    NearX(p, p.nx - 1, jy, jz);
  }

  lemma RightRing(p: System, b: Slab, s: seq<real>, jx: nat, jy: nat, jz: nat, j: int)
    requires InSlab(p, b, jx, jy, jz) && |s| == p.d.Size() && j == p.J(jx, jy, jz)
    ensures 0 <= j - p.d.mx < |s| && 0 <= j - p.d.mx * p.d.my < |s|
    ensures RightAt(p, b, s, jx, jy, jz) ==
            if jz == b.zs then p.Ax(jx, jy, jz) - p.At(1, j) * s[j - p.d.mx]
            else p.Ax(jx, jy, jz) - (p.At(1, j) * s[j - p.d.mx] + p.At(0, j) * s[j - p.d.mx * p.d.my])
  {
    hide System.J, System.At, System.Ax, Dims.Size;
    Near(p, jx, jy, jz);
  }

  /** The forward value from the sums a row starts with. */
  lemma UpRing(p: System, b: Slab, s: seq<real>, jx: nat, jy: nat, jz: nat, j: int, right: real, sum: real, c: real,
               w: real)
    requires InSlab(p, b, jx, jy, jz) && |s| == p.d.Size() && j == p.J(jx, jy, jz)
    requires right == RightAt(p, b, s, jx, jy, jz)
    requires sum == if jx == 0 then 0.0 else ForwardRowAt(p, b, s, jx - 1, jy, jz)
    requires c == p.At(2, j) && w == p.Dinv[j]
    ensures (right - c * sum) * w == ForwardRowAt(p, b, s, jx, jy, jz)
  {
    hide System.J, System.Ax, System.At;
    var bottom := if jz == b.zs then 0.0 else s[p.J(jx, jy, jz - 1)];
    var south := s[p.J(jx, jy - 1, jz)];
    ForwardIs(p.Ax(jx, jy, jz), p.C(1, jx, jy, jz), south, p.C(0, jx, jy, jz), bottom, c, sum, w, jz == b.zs);
  }

  lemma ForwardIs(ax: real, c1: real, south: real, c0: real, bottom: real, c: real, sum: real, w: real, first: bool)
    requires first ==> bottom == 0.0
    ensures (ax - (c1 * south + (if first then 0.0 else c0 * bottom)) - c * sum) * w ==
            (ax - (c1 * south + c0 * bottom + c * sum)) * w
  {
    assert (if first then 0.0 else c0 * bottom) == c0 * bottom;
  }

  /** The recurrence along a row of the forward sweep. */
  method SolveRow(p: System, b: Slab, sums: array<real>, s: array<real>, jy: nat, jz: nat)
    requires p.Valid() && IsSlab(p, b) && jy < p.ny && b.zs <= jz <= b.ze && s.Length == p.d.Size()
    requires s != sums && sums.Length == p.nx + 1 && forall jx: nat | jx < p.nx ::
             sums[jx] == RightAt(p, b, s[..], jx, jy, jz)
    modifies s
    ensures RowSwept(p, b, Up(jz, jy), old(s[..]), s[..])
  {
    hide System.J, System.Ax, System.At, Dims.Size, RightAt, ForwardRowAt, BackwardRowAt;
    ghost var before := s[..];
    var base := p.J(0, jy, jz);
    RowPlaces(p, jy, jz);
    var sum := 0.0;
    for jx := 0 to p.nx
      invariant sum == if jx == 0 then 0.0 else ForwardRowAt(p, b, before, jx - 1, jy, jz)
      invariant forall i: nat | i < jx :: s[base + i] == ForwardRowAt(p, b, before, i, jy, jz)
      invariant forall a | 0 <= a < s.Length && !(base <= a < base + p.nx) :: s[a] == before[a]
    {
      var j := base + jx;
      assert j == p.J(jx, jy, jz);
      var right, c, w := sums[jx], p.At(2, j), p.Dinv[j];
      UpRing(p, b, before, jx, jy, jz, j, right, sum, c, w);
      sum := (right - c * sum) * w;
      s[j] := sum;
    }
  }

  /** A row of the forward sweep. */
  method ForwardRow(p: System, b: Slab, r: array<real>, s: array<real>, jy: nat, jz: nat)
    requires p.Valid() && IsSlab(p, b) && jy < p.ny && b.zs <= jz <= b.ze && r != s
    requires r.Length == s.Length == p.d.Size()
    modifies r, s
    ensures RowSwept(p, b, Up(jz, jy), old(s[..]), s[..])
    ensures forall jx: nat | jx < p.nx :: r[p.J(jx, jy, jz)] == p.Ax(jx, jy, jz)
    ensures SameBeside(p, jy, jz, old(r[..]), r[..])
  {
    hide System.J, System.Ax, System.At, Dims.Size, RightAt, RowSwept;
    var sums := RightRow(p, b, r, s, jy, jz);
    SolveRow(p, b, sums, s, jy, jz);
  }

  /** The northern and upper terms of a row of the backward sweep. */
  ghost function AboveAt(p: System, b: Slab, s: seq<real>, jx: nat, jy: nat, jz: nat): real
    requires InSlab(p, b, jx, jy, jz) && |s| == p.d.Size()
  {
    p.C(5, jx, jy, jz) * s[p.J(jx, jy + 1, jz)]
        + (if jz == b.ze then 0.0 else p.C(6, jx, jy, jz) * s[p.J(jx, jy, jz + 1)])
  }

  lemma DownRing(p: System, b: Slab, s: seq<real>, jx: nat, jy: nat, jz: nat, j: int, here: real, above: real,
                 sum: real, c: real, w: real)
    requires InSlab(p, b, jx, jy, jz) && |s| == p.d.Size() && j == p.J(jx, jy, jz)
    requires here == s[j] && above == AboveAt(p, b, s, jx, jy, jz)
    requires sum == if jx == p.nx - 1 then 0.0 else BackwardRowAt(p, b, s, jx + 1, jy, jz)
    requires c == p.At(4, j) && w == p.Dinv[j]
    ensures here - (c * sum + above) * w == BackwardRowAt(p, b, s, jx, jy, jz)
  {
    hide System.J, System.At;
    var top := if jz == b.ze then 0.0 else s[p.J(jx, jy, jz + 1)];
    var north := s[p.J(jx, jy + 1, jz)];
    BackwardIs(here, c, sum, p.C(5, jx, jy, jz), north, p.C(6, jx, jy, jz), top, w, jz == b.ze);
  }

  lemma BackwardIs(here: real, c: real, sum: real, c5: real, north: real, c6: real, top: real, w: real, last: bool)
    requires last ==> top == 0.0
    ensures here - (c * sum + (c5 * north + (if last then 0.0 else c6 * top))) * w ==
            here - (c * sum + (c5 * north + c6 * top)) * w
  {
    assert (if last then 0.0 else c6 * top) == c6 * top;
  }

  /** A row of the backward sweep. */
  method BackwardRow(p: System, b: Slab, s: array<real>, jy: nat, jz: nat)
    requires p.Valid() && IsSlab(p, b) && jy < p.ny && b.zs <= jz <= b.ze && s.Length == p.d.Size()
    modifies s
    ensures RowSwept(p, b, Down(jz, jy), old(s[..]), s[..])
  {
    hide System.J, System.At, Dims.Size, ForwardRowAt, BackwardRowAt, AboveAt;
    ghost var before := s[..];
    var mx, mxy := p.d.mx, p.d.mx * p.d.my;
    var sums := AboveRow(p, b, s, jy, jz);
    assert s[..] == before;
    var sum := 0.0;
    var base := p.J(0, jy, jz);
    RowPlaces(p, jy, jz);
    for jx := p.nx downto 0
      invariant sum == if jx == p.nx then 0.0 else BackwardRowAt(p, b, before, jx, jy, jz)
      invariant forall i: nat | i < p.nx :: sums[i + 1] == AboveAt(p, b, before, i, jy, jz)
      invariant forall i: nat | jx <= i < p.nx :: s[base + i] == BackwardRowAt(p, b, before, i, jy, jz)
      invariant forall a | 0 <= a < s.Length && !(base + jx <= a < base + p.nx) :: s[a] == before[a]
    {
      var j := base + jx;
      assert j == p.J(jx, jy, jz);
      var here, above, c, w := s[j], sums[jx + 1], p.At(4, j), p.Dinv[j];
      DownRing(p, b, before, jx, jy, jz, j, here, above, sum, c, w);
      sum := here - (c * sum + above) * w;
      s[j] := sum;
    }
  }

  method AboveRow(p: System, b: Slab, s: array<real>, jy: nat, jz: nat) returns (sums: array<real>)
    requires p.Valid() && IsSlab(p, b) && jy < p.ny && b.zs <= jz <= b.ze && s.Length == p.d.Size()
    ensures fresh(sums) && sums.Length == p.nx + 1
    ensures forall jx: nat | jx < p.nx :: sums[jx + 1] == AboveAt(p, b, s[..], jx, jy, jz)
  {
    hide System.J, System.At, Dims.Size, AboveAt, AboveSum;
    sums := new real[p.nx + 1];
    sums[0] := 0.0;
    var base := p.J(0, jy, jz);
    RowPlaces(p, jy, jz);
    ghost var before := s[..];
    for jx := p.nx downto 0
      invariant s[..] == before
      invariant forall i: nat | jx <= i < p.nx :: sums[i + 1] == AboveAt(p, b, before, i, jy, jz)
    {
      var j := base + jx;
      assert j == p.J(jx, jy, jz);
      AboveIs(p, b, before, jx, jy, jz, j);
      sums[jx + 1] := AboveSum(p, s[..], j, jz == b.ze);
    }
  }

  /** The terms of a row above the diagonal but for the one to the east, by position. */
  function AboveSum(p: System, s: seq<real>, j: int, top: bool): real
    requires p.Valid() && |s| == p.d.Size() && 0 <= j < |s|
    requires j + p.d.mx < |s| && j + p.d.mx * p.d.my < |s|
  {
    if top then p.At(5, j) * s[j + p.d.mx]
    else p.At(5, j) * s[j + p.d.mx] + p.At(6, j) * s[j + p.d.mx * p.d.my]
  }

  lemma AboveIs(p: System, b: Slab, s: seq<real>, jx: nat, jy: nat, jz: nat, j: int)
    requires InSlab(p, b, jx, jy, jz) && |s| == p.d.Size() && j == p.J(jx, jy, jz)
    ensures 0 <= j < |s| && 0 <= j + p.d.mx < |s| && 0 <= j + p.d.mx * p.d.my < |s|
    ensures AboveAt(p, b, s, jx, jy, jz) == AboveSum(p, s, j, jz == b.ze)
  {
    hide System.J, System.At, Dims.Size;
    Near(p, jx, jy, jz);
  }

  /** The place after rows jy - 1 (going up) or jy (going down) of plane jz. */
  ghost function UpFrom(p: System, b: Slab, jz: nat, jy: nat): Place
    requires p.Valid() && IsSlab(p, b) && b.zs <= jz <= b.ze && jy <= p.ny
  {
    if jy < p.ny then Up(jz, jy) else NextPlace(p, b, Up(jz, p.ny - 1))
  }

  ghost function DownFrom(p: System, b: Slab, jz: nat, jy: nat): Place
    requires p.Valid() && IsSlab(p, b) && b.zs <= jz <= b.ze && jy <= p.ny
  {
    if jy > 0 then Down(jz, jy - 1) else NextPlace(p, b, Down(jz, 0))
  }

  /** Everything outside the slab's cells is as it was. */
  ghost predicate OutsideKept(p: System, b: Slab, s: seq<real>, s': seq<real>)
    requires p.Valid() && |s| == |s'| == p.d.Size()
  {
    forall a | 0 <= a < |s| && (forall jx: nat, jy: nat, jz: nat | InSlab(p, b, jx, jy, jz) :: a != p.J(jx, jy, jz)) ::
        s'[a] == s[a]
  }

  lemma RowKeepsOutside(p: System, b: Slab, s0: seq<real>, w: Place, s: seq<real>, s': seq<real>)
    requires p.Valid() && |s0| == |s| == |s'| == p.d.Size() && IsSlab(p, b) && IsPlace(p, b, w) && !w.Done?
    requires OutsideKept(p, b, s0, s) && RowSwept(p, b, w, s, s')
    ensures OutsideKept(p, b, s0, s')
  {
    hide System.J, ForwardRowAt, BackwardRowAt;
    forall a | 0 <= a < |s| && (forall jx: nat, jy: nat, jz: nat | InSlab(p, b, jx, jy, jz) :: a != p.J(jx, jy, jz))
      ensures s'[a] == s0[a]
    {
      var k := a - p.J(0, w.y, w.z);
      if 0 <= k < p.nx {
        NearX(p, k, w.y, w.z);
      }
    }
  }

  /** r on the planes of the slab before plane jz, and on the rows of plane jz before jy. */
  ghost predicate RightSoFar(p: System, b: Slab, r: seq<real>, jz: int, jy: int)
    requires p.Valid() && |r| == p.d.Size()
  {
    forall x: nat, y: nat, z: nat | InSlab(p, b, x, y, z) && (z < jz || (z == jz && y < jy)) ::
        r[p.J(x, y, z)] == p.Ax(x, y, z)
  }

  lemma RightGrows(p: System, b: Slab, r: seq<real>, r': seq<real>, jz: nat, jy: nat)
    requires p.Valid() && |r| == |r'| == p.d.Size() && RightSoFar(p, b, r, jz, jy) && IsSlab(p, b) && b.zs <= jz <= b.ze
    requires jy < p.ny
    requires forall x: nat | x < p.nx :: r'[p.J(x, jy, jz)] == p.Ax(x, jy, jz)
    requires SameBeside(p, jy, jz, r, r')
    ensures RightSoFar(p, b, r', jz, jy + 1)
  {
    hide System.J, System.Ax;
    forall x: nat, y: nat, z: nat | InSlab(p, b, x, y, z) && (z < jz || (z == jz && y < jy + 1))
      ensures r'[p.J(x, y, z)] == p.Ax(x, y, z)
    {
      if y != jy || z != jz {
        OffInterval(p, jy, jz, x, y, z);
      }
    }
  }

  /** What one thread runs: up through its planes, then down again. */
  method SweepSlab(p: System, b: Slab, r: array<real>, s: array<real>)
    requires p.Valid() && IsSlab(p, b) && r != s && r.Length == s.Length == p.d.Size()
    modifies r, s
    ensures Progress(p, b, old(s[..]), Done, s[..]) && OutsideKept(p, b, old(s[..]), s[..])
    ensures forall jx: nat, jy: nat, jz: nat | InSlab(p, b, jx, jy, jz) :: r[p.J(jx, jy, jz)] == p.Ax(jx, jy, jz)
  {
    hide System.J, System.Ax, Progress, RowSwept, OutsideKept;
    SweepUpwards(p, b, r, s);
    SweepDownwards(p, b, s, old(s[..]));
  }

  method SweepUpwards(p: System, b: Slab, r: array<real>, s: array<real>)
    requires p.Valid() && IsSlab(p, b) && r != s && r.Length == s.Length == p.d.Size()
    modifies r, s
    ensures Progress(p, b, old(s[..]), Down(b.ze, p.ny - 1), s[..]) && OutsideKept(p, b, old(s[..]), s[..])
    ensures RightSoFar(p, b, r[..], b.ze + 1, 0)
  {
    hide System.J, System.Ax, Progress, RowSwept, OutsideKept, RightSoFar;
    Fresh(p, b, s[..], r[..]);
    for jz := b.zs to b.ze + 1
      invariant Progress(p, b, old(s[..]), if jz <= b.ze then Up(jz, 0) else Down(b.ze, p.ny - 1), s[..])
      invariant OutsideKept(p, b, old(s[..]), s[..]) && RightSoFar(p, b, r[..], jz, 0)
    {
      for jy := 0 to p.ny
        invariant Progress(p, b, old(s[..]), UpFrom(p, b, jz, jy), s[..])
        invariant OutsideKept(p, b, old(s[..]), s[..]) && RightSoFar(p, b, r[..], jz, jy)
      {
        ghost var before, right := s[..], r[..];
        ForwardRow(p, b, r, s, jy, jz);
        RowAdvances(p, b, old(s[..]), Up(jz, jy), before, s[..]);
        RowKeepsOutside(p, b, old(s[..]), Up(jz, jy), before, s[..]);
        RightGrows(p, b, right, r[..], jz, jy);
      }
      RightPlane(p, b, r[..], jz);
    }
  }

  lemma Fresh(p: System, b: Slab, s: seq<real>, r: seq<real>)
    requires p.Valid() && IsSlab(p, b) && |s| == |r| == p.d.Size()
    ensures Progress(p, b, s, Up(b.zs, 0), s) && OutsideKept(p, b, s, s) && RightSoFar(p, b, r, b.zs, 0)
  {
    hide System.J, System.Ax, Forward;
  }

  lemma RightPlane(p: System, b: Slab, r: seq<real>, jz: nat)
    requires p.Valid() && |r| == p.d.Size() && RightSoFar(p, b, r, jz, p.ny)
    ensures RightSoFar(p, b, r, jz + 1, 0)
  {
    hide System.J, System.Ax;
  }

  method SweepDownwards(p: System, b: Slab, s: array<real>, ghost s0: seq<real>)
    requires p.Valid() && IsSlab(p, b) && |s0| == s.Length == p.d.Size()
    requires Progress(p, b, s0, Down(b.ze, p.ny - 1), s[..]) && OutsideKept(p, b, s0, s[..])
    modifies s
    ensures Progress(p, b, s0, Done, s[..]) && OutsideKept(p, b, s0, s[..])
  {
    hide System.J, System.Ax, Progress, RowSwept, OutsideKept;
    for jz := b.ze + 1 downto b.zs
      invariant Progress(p, b, s0, if jz > b.zs then Down(jz - 1, p.ny - 1) else Done, s[..])
      invariant OutsideKept(p, b, s0, s[..])
    {
      for jy := p.ny downto 0
        invariant Progress(p, b, s0, DownFrom(p, b, jz, jy), s[..])
        invariant OutsideKept(p, b, s0, s[..])
      {
        ghost var before := s[..];
        BackwardRow(p, b, s, jy, jz);
        RowAdvances(p, b, s0, Down(jz, jy), before, s[..]);
        RowKeepsOutside(p, b, s0, Down(jz, jy), before, s[..]);
      }
    }
  }
}
