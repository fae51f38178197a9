/** The padded frame of a rank's cells: where the calculation domain lies in the local arrays. */
module Frames {
  import opened Layout
  import opened Ranks

  /** n cells, stm ghost layers below and stp above on every axis; nrk[dir] == -1 marks a physical wall. */
  datatype Frame = Frame(n: Index, stm: nat, stp: nat, nrk: seq<int>) {

    predicate Sized() {
      n.x >= 1 && n.y >= 1 && n.z >= 1 && stm >= 1 && stp >= 1 && |nrk| == 6
    }

    function Dim(): Dims
      requires n.x >= 0 && n.y >= 0 && n.z >= 0
    {
      Dims(n.x + stm + stp, n.y + stm + stp, n.z + stm + stp)
    }

    /** The extents of the unpadded arrays. */
    function Cells(): Dims
      requires n.x >= 0 && n.y >= 0 && n.z >= 0
    {
      Dims(n.x, n.y, n.z)
    }

    /** The padded cell of loop indices (jx, jy, jz). */
    function Padded(jx: int, jy: int, jz: int): Index {
      Index(jx + stm, jy + stm, jz + stm)
    }

    /** Cell of the calculation domain, counted with the ghost layers. */
    predicate IsCell(c: Index) {
      stm <= c.x < n.x + stm && stm <= c.y < n.y + stm && stm <= c.z < n.z + stm
    }

    /** The lower face of c on axis k belongs to a cell of the domain. */
    predicate IsFace(k: nat, c: Index) {
      k < 3 && (IsCell(c) || IsCell(Prev(c, k)))
    }

    /** c touches the physical wall in direction dir. */
    predicate AtWall(c: Index, dir: nat)
      requires |nrk| == 6 && dir < 6
    {
      nrk[dir] == -1 && Get(c, dir / 2) == if dir % 2 == 0 then stm else Get(n, dir / 2) + stm - 1
    }
  }

  function Next(c: Index, k: nat): Index { Put(c, k, Get(c, k) + 1) }

  function Prev(c: Index, k: nat): Index { Put(c, k, Get(c, k) - 1) }

  /** The cell across the face in direction dir, and the cell whose lower face that is. */
  function Across(c: Index, dir: nat): Index {
    if dir % 2 == 0 then Prev(c, dir / 2) else Next(c, dir / 2)
  }

  function FaceOf(c: Index, dir: nat): Index {
    if dir % 2 == 0 then c else Next(c, dir / 2)
  }

  lemma FrameFace(g: Frame, k: nat, c: Index)
    requires g.Sized() && g.IsFace(k, c)
    ensures g.Dim().Has(c.x, c.y, c.z)
    ensures var b := Prev(c, k); g.Dim().Has(b.x, b.y, b.z)
  {
  }

  lemma FaceOfIsFace(g: Frame, c: Index, dir: nat)
    requires g.Sized() && g.IsCell(c) && dir < 6
    ensures g.IsFace(dir / 2, FaceOf(c, dir))
    ensures g.Dim().Has(c.x, c.y, c.z)
    ensures var b := Across(c, dir); g.Dim().Has(b.x, b.y, b.z)
  {
  }

  /** The distance in memory between neighbours on axis k: mx * my, mx or 1. */
  function Stride(d: Dims, k: nat): nat {
    if k == 0 then d.mx * d.my else if k == 1 then d.mx else 1
  }

  lemma StrideIsStep(d: Dims, c: Index, k: nat)
    requires k < 3
    ensures Addr(d, Next(c, k).x, Next(c, k).y, Next(c, k).z) == Addr(d, c.x, c.y, c.z) + Stride(d, k)
    ensures Addr(d, Prev(c, k).x, Prev(c, k).y, Prev(c, k).z) == Addr(d, c.x, c.y, c.z) - Stride(d, k)
  {
    ShiftX(d, c.x, c.y, c.z);
    ShiftX(d, c.x - 1, c.y, c.z);
    ShiftY(d, c.x, c.y, c.z);
    ShiftY(d, c.x, c.y - 1, c.z);
    ShiftZ(d, c.x, c.y, c.z);
    ShiftZ(d, c.x, c.y, c.z - 1);
    hide Addr;
  }

  /** The cell in layer l of axis k whose position in the plane is (a, b), as the loops over a wall run over it. */
  function PlaneCell(k: nat, a: int, b: int, l: int): Index {
    if k == 0 then Index(a, b, l) else if k == 1 then Index(a, l, b) else Index(l, a, b)
  }

  function PlaneA(k: nat, c: Index): int { if k == 2 then c.y else c.x }

  function PlaneB(k: nat, c: Index): int { if k == 0 then c.y else c.z }

  /** A loop nest visits one cell per step. */
  lemma BeforeNext(x: int, y: int, z: int, jx: int, jy: int, jz: int)
    ensures Before(x, y, z, jx + 1, jy, jz) <==> Before(x, y, z, jx, jy, jz) || (x == jx && y == jy && z == jz)
  {
  }

  /** Moving n steps along an axis moves the address by n strides. */
  lemma PutSteps(d: Dims, c: Index, k: nat, n: int)
    requires k < 3
    ensures var o := Put(c, k, Get(c, k) + n); Addr(d, o.x, o.y, o.z) == Addr(d, c.x, c.y, c.z) + n * Stride(d, k)
  {
    var o := Put(c, k, Get(c, k) + n);
    AddrSplits(d, c.x, c.y, c.z);
    AddrSplits(d, o.x, o.y, o.z);
    hide Addr;
    if k == 0 {
      TimesSum(c.z, n, d.mx * d.my);
    } else if k == 1 {
      TimesSum(c.y, n, d.mx);
    }
  }

  lemma TimesSum(a: int, n: int, s: int)
    ensures (a + n) * s == a * s + n * s
  {
  }
}
