/**
 Rows of the solver's matrix array (jupiter/ccse_poisson.c, 246-495 and 516-640): which row and
 column numbers a cell has, the -1 that marks an eliminated neighbour, and where a row is stored.
 The pressure and the temperature matrix share all of it.
 */
module MatrixRows {
  import opened Layout
  import opened Slab
  import opened Ranks
  import opened Frames

  /** Entry q of the row of a cell; q counts b, s, w, c, e, n, t. */
  type Entries = (Index, nat) -> real

  /** The direction of the q-th entry of a row. */
  function EntryDir(q: nat): nat {
    if q == 0 then 0 else if q == 1 then 2 else if q == 2 then 4
    else if q == 4 then 5 else if q == 5 then 3 else 1
  }

  /** Rank 0 has no neighbour below it on any axis (Ranks.Neighbour). */
  predicate RankKnown(g: Frame, rank: int)
    requires g.Sized()
  {
    rank >= 0 && (rank == 0 ==> g.nrk[0] == -1 && g.nrk[2] == -1 && g.nrk[4] == -1)
  }

  lemma RankZeroIsCorner(grid: Dims, dir: nat)
    requires IsRank(grid, 0) && dir < 6 && dir % 2 == 0
    ensures Neighbour(grid, 0, dir) == -1
  {
    SizePositive(grid);
    StructIndexOfAddr(grid, 0, 0, 0);
  }

  /** The global row number of a cell. */
  function RowNumber(g: Frame, rank: int, jx: int, jy: int, jz: int): int
    requires g.Sized()
  {
    rank * g.Cells().Size() + Addr(g.Cells(), jx, jy, jz)
  }

  /** The distance between the rows of neighbouring cells. */
  function RowStride(g: Frame, k: nat): nat
    requires g.Sized()
  {
    Stride(g.Cells(), k)
  }

  /** The column number of the neighbour in direction dir, before the walls are looked at. */
  function Column(g: Frame, rank: int, jx: int, jy: int, jz: int, dir: nat): int
    requires g.Sized()
  {
    if dir % 2 == 0 then RowNumber(g, rank, jx, jy, jz) - RowStride(g, dir / 2)
    else RowNumber(g, rank, jx, jy, jz) + RowStride(g, dir / 2)
  }

  /** The sentinel never hits a cell that is not on that wall. */
  lemma SentinelIsSafe(g: Frame, rank: int, jx: int, jy: int, jz: int, dir: nat)
    requires g.Sized() && RankKnown(g, rank) && g.Cells().Has(jx, jy, jz) && dir < 6
    ensures Column(g, rank, jx, jy, jz, dir) == -1 ==> g.AtWall(g.Padded(jx, jy, jz), dir)
    ensures RowNumber(g, rank, jx, jy, jz) != -1
  {
    var n, i, s := g.Cells(), Addr(g.Cells(), jx, jy, jz), RowStride(g, dir / 2);
    MulStep(0, rank, n.Size());
    StridesFit(n);
    if dir % 2 == 0 && rank == 0 && i < s {
      FirstLayer(n, jx, jy, jz, dir / 2);
    }
  }

  lemma StridesFit(d: Dims)
    requires d.mx > 0 && d.my > 0 && d.mz > 0
    ensures 0 < 1 <= d.mx <= d.mx * d.my <= d.Size()
  {
    MulStep(0, d.my, d.mx);
    MulStep(0, d.mz, d.mx * d.my);
  }

  /** Rows below the stride of an axis belong to the first layer of that axis. */
  lemma FirstLayer(d: Dims, x: int, y: int, z: int, k: nat)
    requires d.Has(x, y, z) && k < 3 && Addr(d, x, y, z) < Stride(d, k)
    ensures (if k == 0 then z else if k == 1 then y else x) == 0
  {
    if k == 0 {
      AddrSplits(d, x, y, z);
      MulStep(0, y, d.mx);
      FirstRow(z, d.mx * d.my, y * d.mx + x, Addr(d, x, y, z));
    } else {
      Within(z, y, d.my, d.mz);
      FirstRow(z * d.my + y, d.mx, x, Addr(d, x, y, z));
      if k == 1 {
        MulStep(0, z, d.my);
      }
    }
  }

  /** What lies below the first multiple of n is in row 0. */
  lemma FirstRow(row: int, n: nat, rest: int, a: int)
    requires row >= 0 && rest >= 0 && a == row * n + rest
    ensures a < n ==> row == 0 && a == rest
  {
    MulStep(0, row, n);
  }

  /** The matrix array holds seven planes of m entries, m being the size of the solver's arrays. */
  function Slot(cg: Dims, stm: nat, x: int, y: int, z: int, q: int): (a: int)
    ensures cg.Has(x + stm, y + stm, z + stm) && 0 <= q < 7 ==> 0 <= a < 7 * cg.Size()
  {
    PlaneBound(cg.Size(), Addr(cg, x + stm, y + stm, z + stm), q);
    Addr(cg, x + stm, y + stm, z + stm) + q * cg.Size()
  }

  lemma SlotInjective(cg: Dims, stm: nat, x: int, y: int, z: int, q: int, x': int, y': int, z': int, q': int)
    requires cg.Has(x + stm, y + stm, z + stm) && cg.Has(x' + stm, y' + stm, z' + stm)
    requires Slot(cg, stm, x, y, z, q) == Slot(cg, stm, x', y', z', q')
    ensures x == x' && y == y' && z == z' && q == q'
  {
    var a, a' := Addr(cg, x + stm, y + stm, z + stm), Addr(cg, x' + stm, y' + stm, z' + stm);
    MulStep(q, q', cg.Size());
    MulStep(q', q, cg.Size());
    AddrInjective(cg, x + stm, y + stm, z + stm, x' + stm, y' + stm, z' + stm);
  }

  /** The rows of the cells visited before (jx, jy, jz) are in place. */
  ghost predicate RowsSoFar(g: Frame, entry: Entries, cg: Dims, stm: nat, A: seq<real>, jx: int, jy: int, jz: int)
    requires g.Sized() && |A| == 7 * cg.Size() && CoversCells(g, cg, stm)
  {
    forall x: int, y: int, z: int, q: nat | g.Cells().Has(x, y, z) && Before(x, y, z, jx, jy, jz) && q < 7 ::
      A[Slot(cg, stm, x, y, z, q)] == entry(g.Padded(x, y, z), q)
  }

  predicate CoversCells(g: Frame, cg: Dims, stm: nat) {
    g.n.x + stm <= cg.mx && g.n.y + stm <= cg.my && g.n.z + stm <= cg.mz
  }

  /** A after the row of cell (jx, jy, jz) has been stored. */
  ghost predicate RowStored(cg: Dims, stm: nat, A: seq<real>, A': seq<real>, jx: int, jy: int, jz: int, row: seq<real>)
    requires |A| == |A'| == 7 * cg.Size() && |row| == 7 && cg.Has(jx + stm, jy + stm, jz + stm)
  {
    && (forall q: nat | q < 7 :: A'[Slot(cg, stm, jx, jy, jz, q)] == row[q])
    && (forall a | 0 <= a < |A| && (forall q: nat | q < 7 :: a != Slot(cg, stm, jx, jy, jz, q)) :: A'[a] == A[a])
  }

  method StoreRow(cg: Dims, stm: nat, A: array<real>, jx: nat, jy: nat, jz: nat, row: seq<real>)
    requires A.Length == 7 * cg.Size() && |row| == 7 && cg.Has(jx + stm, jy + stm, jz + stm)
    modifies A
    ensures RowStored(cg, stm, old(A[..]), A[..], jx, jy, jz, row)
  {
    hide Slot;
    for q := 0 to 7
      invariant forall q': nat | q' < q :: A[Slot(cg, stm, jx, jy, jz, q')] == row[q']
      invariant forall a | 0 <= a < A.Length && (forall q': nat | q' < 7 :: a != Slot(cg, stm, jx, jy, jz, q')) ::
        A[a] == old(A[a])
    {
      forall q': nat | q' < q
        ensures Slot(cg, stm, jx, jy, jz, q') != Slot(cg, stm, jx, jy, jz, q)
      {
        if Slot(cg, stm, jx, jy, jz, q') == Slot(cg, stm, jx, jy, jz, q) {
          SlotInjective(cg, stm, jx, jy, jz, q', jx, jy, jz, q);
        }
      }
      A[Slot(cg, stm, jx, jy, jz, q)] := row[q];
    }
  }

  lemma RowStep(g: Frame, entry: Entries, cg: Dims, stm: nat, A: seq<real>, A': seq<real>, jx: int, jy: int, jz: int,
                row: seq<real>)
    requires g.Sized() && |A| == |A'| == 7 * cg.Size() && CoversCells(g, cg, stm) && g.Cells().Has(jx, jy, jz)
    requires RowsSoFar(g, entry, cg, stm, A, jx, jy, jz) && |row| == 7
    requires forall q | 0 <= q < 7 :: row[q] == entry(g.Padded(jx, jy, jz), q)
    requires RowStored(cg, stm, A, A', jx, jy, jz, row)
    ensures RowsSoFar(g, entry, cg, stm, A', jx + 1, jy, jz)
  {
    hide Slot;
    forall x: int, y: int, z: int, q: nat | g.Cells().Has(x, y, z) && Before(x, y, z, jx + 1, jy, jz) && q < 7
      ensures A'[Slot(cg, stm, x, y, z, q)] == entry(g.Padded(x, y, z), q)
    {
      if !(x == jx && y == jy && z == jz) {
        forall q': nat | q' < 7
          ensures Slot(cg, stm, x, y, z, q) != Slot(cg, stm, jx, jy, jz, q')
        {
          if Slot(cg, stm, x, y, z, q) == Slot(cg, stm, jx, jy, jz, q') {
            SlotInjective(cg, stm, x, y, z, q, jx, jy, jz, q');
          }
        }
      }
    }
  }

  lemma NoRows(g: Frame, entry: Entries, cg: Dims, stm: nat, A: seq<real>)
    requires g.Sized() && |A| == 7 * cg.Size() && CoversCells(g, cg, stm)
    ensures RowsSoFar(g, entry, cg, stm, A, 0, 0, 0)
  {
  }

  lemma RowsLine(g: Frame, entry: Entries, cg: Dims, stm: nat, A: seq<real>, jy: int, jz: int)
    requires g.Sized() && |A| == 7 * cg.Size() && CoversCells(g, cg, stm)
    requires RowsSoFar(g, entry, cg, stm, A, g.n.x, jy, jz)
    ensures RowsSoFar(g, entry, cg, stm, A, 0, jy + 1, jz)
  {
    hide Slot;
  }

  lemma RowsPlane(g: Frame, entry: Entries, cg: Dims, stm: nat, A: seq<real>, jz: int)
    requires g.Sized() && |A| == 7 * cg.Size() && CoversCells(g, cg, stm)
    requires RowsSoFar(g, entry, cg, stm, A, 0, g.n.y, jz)
    ensures RowsSoFar(g, entry, cg, stm, A, 0, 0, jz + 1)
  {
    hide Slot;
  }

  /** The cell whose value entry q of the row of c multiplies. */
  function EntryCell(c: Index, q: nat): Index {
    if q == 3 then c else Across(c, EntryDir(q))
  }

  /** One term of a stored row: an entry of the array times the value it belongs to. */
  function StoredTerm(g: Frame, cg: Dims, stm: nat, A: seq<real>, x: seq<real>, jx: int, jy: int, jz: int, q: nat): real
    requires g.Sized() && |A| == 7 * cg.Size() && CoversCells(g, cg, stm) && |x| == g.Dim().Size()
    requires g.Cells().Has(jx, jy, jz) && q < 7
  {
    EntryCellIsInside(g, jx, jy, jz, q);
    A[Slot(cg, stm, jx, jy, jz, q)] * At(x, g.Dim(), EntryCell(g.Padded(jx, jy, jz), q))
  }

  lemma EntryCellIsInside(g: Frame, jx: int, jy: int, jz: int, q: nat)
    requires g.Sized() && g.Cells().Has(jx, jy, jz) && q < 7
    ensures g.IsCell(g.Padded(jx, jy, jz))
    ensures var b := EntryCell(g.Padded(jx, jy, jz), q); g.Dim().Has(b.x, b.y, b.z)
  {
    FaceOfIsFace(g, g.Padded(jx, jy, jz), EntryDir(q));
  }

  /** The stored row of a cell times the padded field x. */
  function StoredRow(g: Frame, cg: Dims, stm: nat, A: seq<real>, x: seq<real>, jx: int, jy: int, jz: int): real
    requires g.Sized() && |A| == 7 * cg.Size() && CoversCells(g, cg, stm) && |x| == g.Dim().Size()
    requires g.Cells().Has(jx, jy, jz)
  {
    StoredTerm(g, cg, stm, A, x, jx, jy, jz, 0) + StoredTerm(g, cg, stm, A, x, jx, jy, jz, 1) +
    StoredTerm(g, cg, stm, A, x, jx, jy, jz, 2) + StoredTerm(g, cg, stm, A, x, jx, jy, jz, 3) +
    StoredTerm(g, cg, stm, A, x, jx, jy, jz, 4) + StoredTerm(g, cg, stm, A, x, jx, jy, jz, 5) +
    StoredTerm(g, cg, stm, A, x, jx, jy, jz, 6)
  }

  /** Once all rows are stored, a term is the entry of the matrix times that value. */
  lemma StoredTermIs(g: Frame, entry: Entries, cg: Dims, stm: nat, A: seq<real>, x: seq<real>, jx: int, jy: int,
                     jz: int, q: nat)
    requires g.Sized() && |A| == 7 * cg.Size() && CoversCells(g, cg, stm) && |x| == g.Dim().Size()
    requires g.Cells().Has(jx, jy, jz) && q < 7 && RowsSoFar(g, entry, cg, stm, A, 0, 0, g.n.z)
    ensures var c := g.Padded(jx, jy, jz);
            var b := EntryCell(c, q);
            g.Dim().Has(b.x, b.y, b.z) && StoredTerm(g, cg, stm, A, x, jx, jy, jz, q) == entry(c, q) * At(x, g.Dim(), b)
  {
    hide Slot, At, Dims.Size, EntryCell;
    EntryCellIsInside(g, jx, jy, jz, q);
    assert Before(jx, jy, jz, 0, 0, g.n.z);
  }
}
