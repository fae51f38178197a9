/**
 What MatVec_BJ_pre (jupiter/cacg.c, 123-304) works on is the matrix that make_matrix_array and
 make_matrix_array_T store (jupiter/ccse_poisson.c): the product it forms is the product of the stored
 rows, and the parts its two sweeps use are the whole of each row, entry by entry.
 */
module MatrixSweeps {
  import opened Layout
  import opened Slab
  import opened Ranks
  import opened Frames
  import opened MatrixRows
  import opened BlockPreconditioner

  /** The frame g lies in the arrays as the system p does. */
  ghost predicate SameLayout(p: System, g: Frame) {
    && p.Valid() && g.Sized() && g.Dim() == p.d && g.stm == p.sx == p.sm
    && g.n.x == p.nx && g.n.y == p.ny && g.n.z == p.nz
  }

  lemma LayoutFits(p: System, g: Frame)
    requires SameLayout(p, g)
    ensures CoversCells(g, p.d, p.sm) && |p.A| == 7 * p.d.Size() && |p.x| == g.Dim().Size()
    ensures forall jx: int, jy: int, jz: int :: p.IsCell(jx, jy, jz) <==> g.Cells().Has(jx, jy, jz)
  {
  }

  /** The neighbour of a cell that entry q of its row belongs to. */
  function Towards(jx: int, jy: int, jz: int, q: nat): Index {
    match q
    case 0 => Index(jx, jy, jz - 1)
    case 1 => Index(jx, jy - 1, jz)
    case 2 => Index(jx - 1, jy, jz)
    case 4 => Index(jx + 1, jy, jz)
    case 5 => Index(jx, jy + 1, jz)
    case 6 => Index(jx, jy, jz + 1)
    case _ => Index(jx, jy, jz)
  }

  lemma TowardsIsEntryCell(g: Frame, jx: int, jy: int, jz: int, q: nat)
    requires q < 7
    ensures var o := Towards(jx, jy, jz, q); g.Padded(o.x, o.y, o.z) == EntryCell(g.Padded(jx, jy, jz), q)
  {
  }

  /** The term of the product that entry q of the row gives. */
  function EntryTerm(p: System, jx: int, jy: int, jz: int, q: nat): real
    requires p.Valid() && p.IsCell(jx, jy, jz) && q < 7
  {
    var o := Towards(jx, jy, jz, q);
    p.Term(q, p.J(jx, jy, jz), p.J(o.x, o.y, o.z))
  }

  lemma TermIsStored(p: System, g: Frame, jx: int, jy: int, jz: int, q: nat)
    requires SameLayout(p, g) && p.IsCell(jx, jy, jz) && q < 7
    ensures CoversCells(g, p.d, p.sm) && g.Cells().Has(jx, jy, jz)
    ensures EntryTerm(p, jx, jy, jz, q) == StoredTerm(g, p.d, p.sm, p.A, p.x, jx, jy, jz, q)
  {
    hide Addr, Dims.Size, EntryCell, Towards;
    LayoutFits(p, g);
    TowardsIsEntryCell(g, jx, jy, jz, q);
    EntryCellIsInside(g, jx, jy, jz, q);
  }

  /** A x at a cell is the stored row of that cell applied to x. */
  lemma AxIsStoredRow(p: System, g: Frame, jx: int, jy: int, jz: int)
    requires SameLayout(p, g) && p.IsCell(jx, jy, jz)
    ensures CoversCells(g, p.d, p.sm) && g.Cells().Has(jx, jy, jz)
    ensures p.Ax(jx, jy, jz) == StoredRow(g, p.d, p.sm, p.A, p.x, jx, jy, jz)
  {
    hide System.J, System.Term, StoredTerm, Dims.Size;
    LayoutFits(p, g);
    forall q: nat | q < 7
      ensures EntryTerm(p, jx, jy, jz, q) == StoredTerm(g, p.d, p.sm, p.A, p.x, jx, jy, jz, q)
    {
      TermIsStored(p, g, jx, jy, jz, q);
    }
  }

  /** Coefficient k of position j times the value at position i, from the arrays. */
  function ArrayTerm(A: seq<real>, x: seq<real>, k: nat, j: int, i: int): real
    requires |A| == 7 * |x| && k < 7 && 0 <= j < |x| && 0 <= i < |x|
  {
    PlaneBound(|x|, j, k);
    A[j + k * |x|] * x[i]
  }

  lemma TermIsArrayTerm(p: System, k: nat, j: int, i: int)
    requires p.Valid() && k < 7 && 0 <= j < p.d.Size() && 0 <= i < p.d.Size()
    ensures p.Term(k, j, i) == ArrayTerm(p.A, p.x, k, j, i)
  {
    hide Dims.Size;
    PlaneBound(|p.x|, j, k);
  }

  /** A x from the arrays, also where the offset on the x axis is another one than on y and z. */
  lemma AxFromArrays(p: System, jx: int, jy: int, jz: int)
    requires p.Valid() && p.IsCell(jx, jy, jz)
    ensures var mx, mxy := p.d.mx, p.d.mx * p.d.my;
            var j := p.J(jx, jy, jz);
            && |p.A| == 7 * |p.x| && 0 <= j - mxy <= j + mxy < |p.x| && 0 <= j - mx <= j + mx < |p.x|
            && 1 <= j && j + 1 < |p.x|
            && p.Ax(jx, jy, jz) ==
               ArrayTerm(p.A, p.x, 0, j, j - mxy) + ArrayTerm(p.A, p.x, 1, j, j - mx) + ArrayTerm(p.A, p.x, 2, j, j - 1)
               + ArrayTerm(p.A, p.x, 3, j, j) + ArrayTerm(p.A, p.x, 4, j, j + 1) + ArrayTerm(p.A, p.x, 5, j, j + mx)
               + ArrayTerm(p.A, p.x, 6, j, j + mxy)
  {
    hide System.J, System.Term, Dims.Size, ArrayTerm;
    var j, mx, mxy := p.J(jx, jy, jz), p.d.mx, p.d.mx * p.d.my;
    Near(p, jx, jy, jz);
    TermIsArrayTerm(p, 0, j, j - mxy);
    TermIsArrayTerm(p, 1, j, j - mx);
    TermIsArrayTerm(p, 2, j, j - 1);
    TermIsArrayTerm(p, 3, j, j);
    TermIsArrayTerm(p, 4, j, j + 1);
    TermIsArrayTerm(p, 5, j, j + mx);
    TermIsArrayTerm(p, 6, j, j + mxy);
  }

  /** The value of a field next to a cell. */
  function NextTo(p: System, x: seq<real>, jx: int, jy: int, jz: int, q: nat): real
    requires p.Valid() && p.IsCell(jx, jy, jz) && q < 7 && |x| == p.d.Size()
  {
    var o := Towards(jx, jy, jz, q);
    x[p.J(o.x, o.y, o.z)]
  }

  /** An entry of the row times the value of x it belongs to. */
  function EntryTimes(p: System, x: seq<real>, jx: nat, jy: nat, jz: nat, q: nat): real
    requires p.Valid() && p.IsCell(jx, jy, jz) && |x| == p.d.Size() && q < 7
  {
    p.C(q, jx, jy, jz) * NextTo(p, x, jx, jy, jz, q)
  }

  /**
   The sweeps split that same matrix: what the forward sweep takes for the part of a row below the
   diagonal, the diagonal, and what the backward sweep takes for the part above it make up the stored
   row, whatever field they are applied to.
   */
  lemma SweepsSplitStoredRow(p: System, g: Frame, x: seq<real>, jx: nat, jy: nat, jz: nat)
    requires SameLayout(p, g) && p.IsCell(jx, jy, jz) && |x| == p.d.Size()
    ensures CoversCells(g, p.d, p.sm) && g.Cells().Has(jx, jy, jz) && |x| == g.Dim().Size()
    ensures LowerRow(p, jx, jy, jz, NextTo(p, x, jx, jy, jz, 1), NextTo(p, x, jx, jy, jz, 0),
                     NextTo(p, x, jx, jy, jz, 2))
            + EntryTimes(p, x, jx, jy, jz, 3)
            + UpperRow(p, jx, jy, jz, NextTo(p, x, jx, jy, jz, 5), NextTo(p, x, jx, jy, jz, 6),
                       NextTo(p, x, jx, jy, jz, 4))
            == StoredRow(g, p.d, p.sm, p.A, x, jx, jy, jz)
  {
    var s := p.(x := x);
    assert SameLayout(s, g) by {
      hide Addr;
    }
    hide System.J, System.At, StoredTerm, StoredRow, Dims.Size;
    AxIsStoredRow(s, g, jx, jy, jz);
    SplitOfAx(p, s, x, jx, jy, jz);
  }

  lemma EntryTimesIsTerm(p: System, s: System, x: seq<real>, jx: nat, jy: nat, jz: nat, q: nat)
    requires p.Valid() && p.IsCell(jx, jy, jz) && |x| == p.d.Size() && s == p.(x := x) && s.Valid() && q < 7
    ensures EntryTimes(p, x, jx, jy, jz, q) == EntryTerm(s, jx, jy, jz, q)
  {
    hide Addr, Dims.Size, Towards;
    var o := Towards(jx, jy, jz, q);
    assert s.J(o.x, o.y, o.z) == p.J(o.x, o.y, o.z) && s.J(jx, jy, jz) == p.J(jx, jy, jz);
    assert s.At(q, s.J(jx, jy, jz)) == p.C(q, jx, jy, jz);
  }

  lemma SplitOfAx(p: System, s: System, x: seq<real>, jx: nat, jy: nat, jz: nat)
    requires p.Valid() && p.IsCell(jx, jy, jz) && |x| == p.d.Size() && s == p.(x := x) && s.Valid()
    ensures LowerRow(p, jx, jy, jz, NextTo(p, x, jx, jy, jz, 1), NextTo(p, x, jx, jy, jz, 0),
                     NextTo(p, x, jx, jy, jz, 2))
            + EntryTimes(p, x, jx, jy, jz, 3)
            + UpperRow(p, jx, jy, jz, NextTo(p, x, jx, jy, jz, 5), NextTo(p, x, jx, jy, jz, 6),
                       NextTo(p, x, jx, jy, jz, 4))
            == s.Ax(jx, jy, jz)
  {
    forall q: nat | q < 7
      ensures EntryTimes(p, x, jx, jy, jz, q) == EntryTerm(s, jx, jy, jz, q)
    {
      EntryTimesIsTerm(p, s, x, jx, jy, jz, q);
    }
    RowsAreTerms(p, x, jx, jy, jz);
    AxIsTerms(s, jx, jy, jz);
    hide *;
  }

  lemma RowsAreTerms(p: System, x: seq<real>, jx: nat, jy: nat, jz: nat)
    requires p.Valid() && p.IsCell(jx, jy, jz) && |x| == p.d.Size()
    ensures LowerRow(p, jx, jy, jz, NextTo(p, x, jx, jy, jz, 1), NextTo(p, x, jx, jy, jz, 0),
                     NextTo(p, x, jx, jy, jz, 2)) ==
            EntryTimes(p, x, jx, jy, jz, 1) + EntryTimes(p, x, jx, jy, jz, 0) + EntryTimes(p, x, jx, jy, jz, 2)
    ensures UpperRow(p, jx, jy, jz, NextTo(p, x, jx, jy, jz, 5), NextTo(p, x, jx, jy, jz, 6),
                     NextTo(p, x, jx, jy, jz, 4)) ==
            EntryTimes(p, x, jx, jy, jz, 4) + EntryTimes(p, x, jx, jy, jz, 5) + EntryTimes(p, x, jx, jy, jz, 6)
  {
    hide System.J, System.C, Dims.Size, NextTo;
  }

  lemma AxIsTerms(s: System, jx: nat, jy: nat, jz: nat)
    requires s.Valid() && s.IsCell(jx, jy, jz)
    ensures s.Ax(jx, jy, jz) ==
            EntryTerm(s, jx, jy, jz, 0) + EntryTerm(s, jx, jy, jz, 1) + EntryTerm(s, jx, jy, jz, 2) +
            EntryTerm(s, jx, jy, jz, 3) + EntryTerm(s, jx, jy, jz, 4) + EntryTerm(s, jx, jy, jz, 5) +
            EntryTerm(s, jx, jy, jz, 6)
  {
    hide System.J, System.Term, Dims.Size;
  }
}
