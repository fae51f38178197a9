/**
 The Cartesian grid of MPI ranks and the segments of the message buffers
 (jupiter/communication.c, set_mpi_for_rank and calc_ptr).
 Directions are numbered as in nrk[]: 0/1 lower/upper z, 2/3 lower/upper y, 4/5 lower/upper x;
 axis k (0 = z, 1 = y, 2 = x) owns directions 2k and 2k + 1.
 */
module Ranks {
  import opened Layout

  function Get(c: Index, k: nat): int {
    if k == 0 then c.z else if k == 1 then c.y else c.x
  }

  function Put(c: Index, k: nat, v: int): Index {
    if k == 0 then c.(z := v) else if k == 1 then c.(y := v) else c.(x := v)
  }

  function Extent(d: Dims, k: nat): nat {
    if k == 0 then d.mz else if k == 1 then d.my else d.mx
  }

  predicate IsRank(grid: Dims, r: int) {
    0 <= r < grid.Size()
  }

  /** The rank one step up or down from rank r in direction dir, or -1 at the edge of the grid. */
  function Neighbour(grid: Dims, r: int, dir: nat): (s: int)
    requires IsRank(grid, r) && dir < 6
    ensures s == -1 || IsRank(grid, s)
  {
    var c := CellAt(grid, r);
    var v := Get(c, dir / 2) + (if dir % 2 == 0 then -1 else 1);
    if 0 <= v < Extent(grid, dir / 2) then
      var n := Put(c, dir / 2, v);
      Addr(grid, n.x, n.y, n.z)
    else -1
  }

  function Opposite(dir: nat): nat {
    if dir % 2 == 0 then dir + 1 else dir - 1
  }

  lemma NeighbourCell(grid: Dims, r: int, dir: nat)
    requires IsRank(grid, r) && dir < 6 && Neighbour(grid, r, dir) != -1
    ensures CellAt(grid, Neighbour(grid, r, dir)) ==
            Put(CellAt(grid, r), dir / 2, Get(CellAt(grid, r), dir / 2) + if dir % 2 == 0 then -1 else 1)
  {
    var c := CellAt(grid, r);
    var n := Put(c, dir / 2, Get(c, dir / 2) + if dir % 2 == 0 then -1 else 1);
    StructIndexOfAddr(grid, n.x, n.y, n.z);
  }

  lemma NeighbourBack(grid: Dims, r: int, dir: nat)
    requires IsRank(grid, r) && dir < 6 && Neighbour(grid, r, dir) != -1
    ensures Neighbour(grid, Neighbour(grid, r, dir), Opposite(dir)) == r
  {
    NeighbourCell(grid, r, dir);
    assert Opposite(dir) / 2 == dir / 2 && Opposite(dir) % 2 != dir % 2;
  }

  /** s is r's neighbour in a direction exactly when r is s's neighbour in the opposite one. */
  lemma NeighbourSymmetric(grid: Dims, r: int, s: int, dir: nat)
    requires IsRank(grid, r) && IsRank(grid, s) && dir < 6
    ensures Neighbour(grid, r, dir) == s <==> Neighbour(grid, s, Opposite(dir)) == r
  {
    if Neighbour(grid, r, dir) == s {
      NeighbourBack(grid, r, dir);
    }
    if Neighbour(grid, s, Opposite(dir)) == r {
      NeighbourBack(grid, s, Opposite(dir));
      assert Opposite(Opposite(dir)) == dir;
    }
  }

  /**
   A pair of ranks is joined in at most one direction.  A message is matched by source and
   tag only, and the tag is always the receiver's rank, so this is what keeps the six
   messages of a rank apart.
   */
  lemma OneDirection(grid: Dims, r: int, dir: nat, dir': nat)
    requires IsRank(grid, r) && dir < 6 && dir' < 6
    requires Neighbour(grid, r, dir) == Neighbour(grid, r, dir') != -1
    ensures dir == dir'
  {
    NeighbourCell(grid, r, dir);
    NeighbourCell(grid, r, dir');
  }

  /** The six neighbours in the form set_mpi_for_rank computes them. */
  lemma NeighbourFormula(grid: Dims, r: int, rx: int, ry: int, rz: int, mxy: int)
    requires IsRank(grid, r) && CellAt(grid, r) == Index(rx, ry, rz) && mxy == grid.mx * grid.my
    ensures Neighbour(grid, r, 0) == if rz - 1 > -1 then rx + grid.mx * ry + mxy * (rz - 1) else -1
    ensures Neighbour(grid, r, 1) == if rz + 1 < grid.mz then rx + grid.mx * ry + mxy * (rz + 1) else -1
    ensures Neighbour(grid, r, 2) == if ry - 1 > -1 then rx + grid.mx * (ry - 1) + mxy * rz else -1
    ensures Neighbour(grid, r, 3) == if ry + 1 < grid.my then rx + grid.mx * (ry + 1) + mxy * rz else -1
    ensures Neighbour(grid, r, 4) == if rx - 1 > -1 then (rx - 1) + grid.mx * ry + mxy * rz else -1
    ensures Neighbour(grid, r, 5) == if rx + 1 < grid.mx then (rx + 1) + grid.mx * ry + mxy * rz else -1
  {
    hide Addr, Dims.Size;
    RowMajor(grid, rx, ry, rz - 1);
    RowMajor(grid, rx, ry, rz + 1);
    RowMajor(grid, rx, ry - 1, rz);
    RowMajor(grid, rx, ry + 1, rz);
    RowMajor(grid, rx - 1, ry, rz);
    RowMajor(grid, rx + 1, ry, rz);
  }

  /** The address formula as the communication and solver code writes it. */
  lemma RowMajor(d: Dims, x: int, y: int, z: int)
    ensures Addr(d, x, y, z) == x + d.mx * y + d.mx * d.my * z
  {
    AddrSplits(d, x, y, z);
    hide Addr;
    Commute(z, d.mx * d.my);
    Commute(y, d.mx);
  }

  /** The rank-dependent part of mpi_param. */
  class MpiParam {
    const nrk: array<int>
    var rank: int
    var npe_x: int
    var npe_y: int
    var npe_xy: int
    var npe_z: int
    var npe: int
    var rank_x: int
    var rank_y: int
    var rank_z: int

    constructor ()
      ensures fresh(nrk) && nrk.Length == 6
    {
      nrk := new int[6];
    }

    /** set_mpi_for_rank; `bad` is the error status it raises. */
    method SetForRank(npex: int, npey: int, npez: int, rk: int) returns (bad: bool)
      requires nrk.Length == 6
      modifies this, nrk
      ensures bad <==> !(0 <= rk < npex * npey * npez)
      ensures npex > 0 && npey > 0 && npez > 0 && !bad ==>
                var grid := Dims(npex, npey, npez);
                IsRank(grid, rk) &&
                Index(rank_x, rank_y, rank_z) == CellAt(grid, rk) &&
                forall dir: nat | dir < 6 :: nrk[dir] == Neighbour(grid, rk, dir)
    {
      hide Neighbour, Dims.Size;
      for i := 0 to 6
        invariant forall j | 0 <= j < i :: nrk[j] == -1
      {
        nrk[i] := -1;
      }
      rank, npe_x, npe_y, npe_xy, npe_z := rk, npex, npey, npex * npey, npez;
      npe := npe_xy * npez;
      bad := rank < 0 || rank >= npe;
      rank_x, rank_y, rank_z := RankCoordinates(rk, npex, npey, npez);
      SetNeighbours();
      if npex > 0 && npey > 0 && npez > 0 && !bad {
        GridSize(npex, npey, npez);
        NeighbourFormula(Dims(npex, npey, npez), rk, rank_x, rank_y, rank_z, npe_xy);
      }
    }

    /** The block of set_mpi_for_rank that fills nrk[]. */
    method SetNeighbours()
      requires nrk.Length == 6 && forall j | 0 <= j < 6 :: nrk[j] == -1
      modifies nrk
      ensures nrk[0] == if rank_z - 1 > -1 then rank_x + npe_x * rank_y + npe_xy * (rank_z - 1) else -1
      ensures nrk[1] == if rank_z + 1 < npe_z then rank_x + npe_x * rank_y + npe_xy * (rank_z + 1) else -1
      ensures nrk[2] == if rank_y - 1 > -1 then rank_x + npe_x * (rank_y - 1) + npe_xy * rank_z else -1
      ensures nrk[3] == if rank_y + 1 < npe_y then rank_x + npe_x * (rank_y + 1) + npe_xy * rank_z else -1
      ensures nrk[4] == if rank_x - 1 > -1 then (rank_x - 1) + npe_x * rank_y + npe_xy * rank_z else -1
      ensures nrk[5] == if rank_x + 1 < npe_x then (rank_x + 1) + npe_x * rank_y + npe_xy * rank_z else -1
    {
      var rkxm, rkxp := rank_x - 1, rank_x + 1;
      var rkym, rkyp := rank_y - 1, rank_y + 1;
      var rkzm, rkzp := rank_z - 1, rank_z + 1;
      if rkzm > -1 { nrk[0] := rank_x + npe_x * rank_y + npe_xy * rkzm; }
      if rkzp < npe_z { nrk[1] := rank_x + npe_x * rank_y + npe_xy * rkzp; }
      if rkym > -1 { nrk[2] := rank_x + npe_x * rkym + npe_xy * rank_z; }
      if rkyp < npe_y { nrk[3] := rank_x + npe_x * rkyp + npe_xy * rank_z; }
      if rkxm > -1 { nrk[4] := rkxm + npe_x * rank_y + npe_xy * rank_z; }
      if rkxp < npe_x { nrk[5] := rkxp + npe_x * rank_y + npe_xy * rank_z; }
    }
  }

  lemma GridSize(npex: nat, npey: nat, npez: nat)
    ensures Dims(npex, npey, npez).Size() == npex * npey * npez
  {
  }

  /** The rank's place in the grid; C's truncating division agrees with Dafny's for a valid rank. */
  method RankCoordinates(rk: int, npex: int, npey: int, npez: int) returns (rx: int, ry: int, rz: int)
    ensures npex > 0 && npey > 0 && npez > 0 && 0 <= rk < npex * npey * npez ==>
              Index(rx, ry, rz) == CellAt(Dims(npex, npey, npez), rk)
  {
    rx, ry, rz := 0, 0, 0;
    if npex > 0 && npey > 0 && npez > 0 {
      SplitRank(npex, npey);
      rx := (rk % (npex * npey)) % npex;
      ry := (rk % (npex * npey)) / npex;
      rz := rk / (npex * npey);
      if 0 <= rk < npex * npey * npez {
        CellAtFormula(Dims(npex, npey, npez), rk);
      }
    }
  }

  lemma SplitRank(npex: int, npey: int)
    requires npex > 0 && npey > 0
    ensures npex * npey > 0
  {
  }

  lemma CellAtFormula(d: Dims, a: int)
    requires 0 <= a < d.Size() && d.mx * d.my > 0 && d.mx > 0
    ensures CellAt(d, a) == Index((a % (d.mx * d.my)) % d.mx, (a % (d.mx * d.my)) / d.mx, a / (d.mx * d.my))
  {
    AddrOfStructIndex(d, a);
  }

  /** The number of values in one message of direction dir. */
  function MessageSize(d: Dims, stcl: nat, dir: nat): nat {
    if dir < 2 then d.mx * d.my * stcl else if dir < 4 then d.mx * d.mz * stcl else d.my * d.mz * stcl
  }

  /** The buffer space of the directions before dir that have a neighbour. */
  function SegmentStart(d: Dims, stcl: nat, nrk: seq<int>, dir: nat): nat
    requires |nrk| == 6 && dir <= 6
  {
    if dir == 0 then 0
    else SegmentStart(d, stcl, nrk, dir - 1) + if nrk[dir - 1] > -1 then MessageSize(d, stcl, dir - 1) else 0
  }

  lemma SizesByAxis(d: Dims, stcl: nat, xy: int, xz: int, yz: int)
    requires xy == d.mx * d.my * stcl && xz == d.mx * d.mz * stcl && yz == d.my * d.mz * stcl
    ensures MessageSize(d, stcl, 0) == MessageSize(d, stcl, 1) == xy
    ensures MessageSize(d, stcl, 2) == MessageSize(d, stcl, 3) == xz
    ensures MessageSize(d, stcl, 4) == MessageSize(d, stcl, 5) == yz
  {
  }

  lemma SegmentSteps(d: Dims, stcl: nat, nrk: seq<int>)
    requires |nrk| == 6
    ensures SegmentStart(d, stcl, nrk, 0) == 0
    ensures forall dir: nat | dir < 6 ::
              SegmentStart(d, stcl, nrk, dir + 1) ==
              SegmentStart(d, stcl, nrk, dir) + if nrk[dir] > -1 then MessageSize(d, stcl, dir) else 0
  {
    hide MessageSize;
  }

  /** calc_ptr. */
  method CalcPtr(ptr: array<int>, d: Dims, stcl: nat, nrk: seq<int>) returns (numBuffer: int)
    requires ptr.Length == 7 && |nrk| == 6
    modifies ptr
    ensures numBuffer == ptr[6] == SegmentStart(d, stcl, nrk, 6)
    ensures forall dir: nat | dir < 6 && nrk[dir] > -1 :: ptr[dir] == SegmentStart(d, stcl, nrk, dir)
  {
    hide MessageSize, SegmentStart;
    for i := 0 to 7
      invariant forall j | 0 <= j < i :: ptr[j] == 0
    {
      ptr[i] := 0;
    }
    var xy, xz, yz := d.mx * d.my * stcl, d.mx * d.mz * stcl, d.my * d.mz * stcl;
    SizesByAxis(d, stcl, xy, xz, yz);
    SegmentSteps(d, stcl, nrk);
    if nrk[0] > -1 { ptr[0] := 0; ptr[6] := xy; }
    assert ptr[6] == SegmentStart(d, stcl, nrk, 1);
    if nrk[1] > -1 { ptr[1] := ptr[6]; ptr[6] := ptr[6] + xy; }
    assert ptr[6] == SegmentStart(d, stcl, nrk, 2);
    if nrk[2] > -1 { ptr[2] := ptr[6]; ptr[6] := ptr[6] + xz; }
    assert ptr[6] == SegmentStart(d, stcl, nrk, 3);
    if nrk[3] > -1 { ptr[3] := ptr[6]; ptr[6] := ptr[6] + xz; }
    assert ptr[6] == SegmentStart(d, stcl, nrk, 4);
    if nrk[4] > -1 { ptr[4] := ptr[6]; ptr[6] := ptr[6] + yz; }
    assert ptr[6] == SegmentStart(d, stcl, nrk, 5);
    if nrk[5] > -1 { ptr[5] := ptr[6]; ptr[6] := ptr[6] + yz; }
    assert ptr[6] == SegmentStart(d, stcl, nrk, 6);
    numBuffer := ptr[6];
  }

  /** Active segments follow one another, so no two of them overlap ... */
  lemma {:induction false} SegmentsDisjoint(d: Dims, stcl: nat, nrk: seq<int>, dir: nat, dir': nat)
    requires |nrk| == 6 && dir < dir' <= 6 && nrk[dir] > -1
    ensures SegmentStart(d, stcl, nrk, dir) + MessageSize(d, stcl, dir) <= SegmentStart(d, stcl, nrk, dir')
    decreases dir'
  {
    if dir + 1 < dir' {
      SegmentsDisjoint(d, stcl, nrk, dir, dir' - 1);
    }
  }

  /** ... and together they fit into the buffer that `communication` allocates. */
  lemma SegmentsFit(d: Dims, stcl: nat, nrk: seq<int>)
    requires |nrk| == 6
    ensures SegmentStart(d, stcl, nrk, 6) <= (d.mx * d.my + d.my * d.mz + d.mz * d.mx) * 2 * stcl
  {
    StartBound(d, stcl, nrk, 6);
    TotalIs(d, stcl);
    assert d.mz * d.mx == d.mx * d.mz;
    BufferSize(d.mx * d.my, d.my * d.mz, d.mx * d.mz, stcl);
  }

  /** The buffer space of all directions before dir. */
  function MessageTotal(d: Dims, stcl: nat, dir: nat): nat
    requires dir <= 6
  {
    if dir == 0 then 0 else MessageTotal(d, stcl, dir - 1) + MessageSize(d, stcl, dir - 1)
  }

  lemma TotalIs(d: Dims, stcl: nat)
    ensures MessageTotal(d, stcl, 6) ==
            MessageSize(d, stcl, 0) + MessageSize(d, stcl, 1) + MessageSize(d, stcl, 2) +
            MessageSize(d, stcl, 3) + MessageSize(d, stcl, 4) + MessageSize(d, stcl, 5)
  {
    assert MessageTotal(d, stcl, 1) == MessageSize(d, stcl, 0);
    assert MessageTotal(d, stcl, 2) == MessageTotal(d, stcl, 1) + MessageSize(d, stcl, 1);
    assert MessageTotal(d, stcl, 3) == MessageTotal(d, stcl, 2) + MessageSize(d, stcl, 2);
    assert MessageTotal(d, stcl, 4) == MessageTotal(d, stcl, 3) + MessageSize(d, stcl, 3);
    assert MessageTotal(d, stcl, 5) == MessageTotal(d, stcl, 4) + MessageSize(d, stcl, 4);
  }

  lemma {:induction false} StartBound(d: Dims, stcl: nat, nrk: seq<int>, dir: nat)
    requires |nrk| == 6 && dir <= 6
    ensures SegmentStart(d, stcl, nrk, dir) <= MessageTotal(d, stcl, dir)
  {
    if dir > 0 {
      StartBound(d, stcl, nrk, dir - 1);
    }
  }

  lemma BufferSize(xy: int, yz: int, zx: int, stcl: int)
    ensures (xy + yz + zx) * 2 * stcl == xy * stcl + xy * stcl + zx * stcl + zx * stcl + yz * stcl + yz * stcl
  {
  }
}
