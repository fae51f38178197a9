/**
 The pressure matrix of several ranks (jupiter/ccse_poisson.c, 246-495): every rank assembles the rows
 of its own cells, with its neighbours' data in its halo.  Together they are the rows of one matrix,
 the one a single rank would assemble for the whole domain, so what Definiteness proves of that matrix
 holds for the distributed one.
 */
module Decomposition {
  import opened Layout
  import opened Slab
  import opened Ranks
  import opened Frames
  import opened Flow
  import opened Projection
  import opened Definiteness

  function Moved(c: Index, o: Index): Index {
    Index(c.x + o.x, c.y + o.y, c.z + o.z)
  }

  lemma MovedSteps(c: Index, o: Index, dir: nat)
    requires dir < 6
    ensures Across(Moved(c, o), dir) == Moved(Across(c, dir), o)
    ensures FaceOf(Moved(c, o), dir) == Moved(FaceOf(c, dir), o)
    ensures Prev(Moved(c, o), dir / 2) == Moved(Prev(c, dir / 2), o)
  {
  }

  /** Face (k, f) of a rank is a face of the whole, with the same data on both sides. */
  ghost predicate SameFace(p: Case, P: Case, o: Index, k: nat, f: Index)
    requires p.Valid() && P.Valid() && k < 3 && p.IsFace(k, f)
  {
    FaceCells(p, k, f);
    && P.IsFace(k, Moved(f, o))
    && Inlet(p, k, f) == Inlet(P, k, Moved(f, o))
    && DensitySum(p, k, f) == DensitySum(P, k, Moved(f, o))
    && MatrixEps(p, k, f) == MatrixEps(P, k, Moved(f, o))
  }

  /** What a rank holds is its part of the whole domain, o cells further on. */
  ghost predicate PartOf(p: Case, P: Case, o: Index) {
    && p.Valid() && P.Valid() && p.di == P.di
    && (forall k: nat, f: Index | k < 3 && p.IsFace(k, f) :: SameFace(p, P, o, k, f))
    && (forall c: Index | p.IsCell(c) :: P.IsCell(Moved(c, o)))
    && (forall c: Index, dir: nat | p.IsCell(c) && dir < 6 ::
          && (AtWall(p, c, dir) <==> AtWall(P, Moved(c, o), dir))
          && (AtWall(p, c, dir) ==> p.wall(dir, c) == P.wall(dir, Moved(c, o))))
  }

  lemma SameCoef(p: Case, P: Case, o: Index, c: Index, dir: nat)
    requires PartOf(p, P, o) && p.IsCell(c) && dir < 6
    ensures P.IsCell(Moved(c, o)) && CoefAt(p, c, dir) == CoefAt(P, Moved(c, o), dir)
  {
    hide Inlet, DensitySum, MatrixEps, Mobility;
    FaceOfIsFace(p.g, c, dir);
    MovedSteps(c, o, dir);
    assert SameFace(p, P, o, dir / 2, FaceOf(c, dir));
  }

  /** The entries of a rank's rows are those of the whole matrix. */
  lemma SameEntries(p: Case, P: Case, o: Index, c: Index)
    requires PartOf(p, P, o) && p.IsCell(c)
    ensures P.IsCell(Moved(c, o)) && Diagonal(p, c) == Diagonal(P, Moved(c, o))
    ensures forall dir: nat | dir < 6 :: OffDiagonal(p, c, dir) == OffDiagonal(P, Moved(c, o), dir)
  {
    forall dir: nat | dir < 6
      ensures OffDiagonal(p, c, dir) == OffDiagonal(P, Moved(c, o), dir)
      ensures DiagonalPart(p, c, dir) == DiagonalPart(P, Moved(c, o), dir)
    {
      SameEntry(p, P, o, c, dir);
    }
    hide PartOf, DiagonalPart, OffDiagonal;
  }

  lemma SameEntry(p: Case, P: Case, o: Index, c: Index, dir: nat)
    requires PartOf(p, P, o) && p.IsCell(c) && dir < 6
    ensures P.IsCell(Moved(c, o)) && OffDiagonal(p, c, dir) == OffDiagonal(P, Moved(c, o), dir)
    ensures DiagonalPart(p, c, dir) == DiagonalPart(P, Moved(c, o), dir)
  {
    hide CoefAt, AtWall;
    SameCoef(p, P, o, c, dir);
  }

  /** A rank's field shows the whole field at a cell and at its neighbours inside the domain. */
  ghost predicate Shows(p: Case, P: Case, o: Index, c: Index, x: seq<real>, X: seq<real>)
    requires PartOf(p, P, o) && p.IsCell(c) && |x| == p.Dim().Size() && |X| == P.Dim().Size()
  {
    && CellValue(p, c, x) == CellValue(P, Moved(c, o), X)
    && forall dir: nat | dir < 6 && !AtWall(p, c, dir) ::
         NeighbourValue(p, c, dir, x) == NeighbourValue(P, Moved(c, o), dir, X)
  }

  /** So a rank's row says what the whole matrix says there, whatever the halo holds behind the walls. */
  lemma LocalRowIsGlobal(p: Case, P: Case, o: Index, c: Index, x: seq<real>, X: seq<real>)
    requires PartOf(p, P, o) && p.IsCell(c) && |x| == p.Dim().Size() && |X| == P.Dim().Size() && Shows(p, P, o, c, x, X)
    ensures P.IsCell(Moved(c, o)) && Row(p, c, x) == Row(P, Moved(c, o), X)
  {
    hide Diagonal, OffDiagonal, CellValue, NeighbourValue;
    SameEntries(p, P, o, c);
    forall dir: nat | dir < 6
      ensures OffTerm(p, c, dir, x) == OffTerm(P, Moved(c, o), dir, X)
    {
      SameOff(p, P, o, c, dir, x, X);
    }
    hide OffTerm, PartOf;
  }

  lemma SameOff(p: Case, P: Case, o: Index, c: Index, dir: nat, x: seq<real>, X: seq<real>)
    requires PartOf(p, P, o) && p.IsCell(c) && |x| == p.Dim().Size() && |X| == P.Dim().Size() && Shows(p, P, o, c, x, X)
    requires dir < 6
    ensures P.IsCell(Moved(c, o)) && OffTerm(p, c, dir, x) == OffTerm(P, Moved(c, o), dir, X)
  {
    hide CellValue, NeighbourValue, CoefAt;
    SameEntry(p, P, o, c, dir);
  }

  /** One rank with its place in the whole domain and its part of a pressure field. */
  datatype Share = Share(p: Case, o: Index, x: seq<real>)

  ghost predicate IsShare(s: Share, P: Case, X: seq<real>) {
    && PartOf(s.p, P, s.o) && |s.x| == s.p.Dim().Size() && |X| == P.Dim().Size()
    && forall c: Index | s.p.IsCell(c) :: Shows(s.p, P, s.o, c, s.x, X)
  }

  /** Every cell of the domain belongs to some rank. */
  ghost predicate Covers(shares: seq<Share>, P: Case) {
    forall C: Index | P.IsCell(C) :: exists r: nat, c: Index ::
        r < |shares| && shares[r].p.IsCell(c) && Moved(c, shares[r].o) == C
  }

  /** All rows of a rank give zero, and its field is zero. */
  ghost predicate RowsVanish(s: Share) {
    && s.p.Valid() && |s.x| == s.p.Dim().Size()
    && forall c: Index | s.p.IsCell(c) :: Row(s.p, c, s.x) == 0.0
  }

  ghost predicate FieldVanishes(s: Share) {
    && s.p.Valid() && |s.x| == s.p.Dim().Size()
    && forall c: Index | s.p.IsCell(c) :: CellValue(s.p, c, s.x) == 0.0
  }

  /** The distributed matrix has no kernel: if all ranks' rows give zero, so is the field, on every rank. */
  lemma DistributedKernel(shares: seq<Share>, P: Case, X: seq<real>)
    requires OneRank(P) && |X| == P.Dim().Size() && Covers(shares, P)
    requires forall r: nat | r < |shares| :: IsShare(shares[r], P, X) && RowsVanish(shares[r])
    ensures forall r: nat | r < |shares| :: FieldVanishes(shares[r])
  {
    hide Row, CellValue, PartOf, IsShare, RowsVanish, FieldVanishes;
    forall C: Index | P.IsCell(C)
      ensures Row(P, C, X) == 0.0
    {
      var r: nat, c: Index :| r < |shares| && shares[r].p.IsCell(c) && Moved(c, shares[r].o) == C;
      RowVanishes(shares[r], P, X, c);
    }
    OnlyTrivialKernel(P, X);
    forall r: nat | r < |shares|
      ensures FieldVanishes(shares[r])
    {
      ShareVanishes(shares[r], P, X);
    }
  }

  lemma RowVanishes(s: Share, P: Case, X: seq<real>, c: Index)
    requires P.Valid() && |X| == P.Dim().Size() && IsShare(s, P, X) && RowsVanish(s) && s.p.IsCell(c)
    ensures P.IsCell(Moved(c, s.o)) && Row(P, Moved(c, s.o), X) == 0.0
  {
    hide Row, Shows;
    LocalRowIsGlobal(s.p, P, s.o, c, s.x, X);
  }

  lemma ShareVanishes(s: Share, P: Case, X: seq<real>)
    requires P.Valid() && |X| == P.Dim().Size() && IsShare(s, P, X)
    requires forall C: Index | P.IsCell(C) :: CellValue(P, C, X) == 0.0
    ensures FieldVanishes(s)
  {
    hide CellValue, NeighbourValue, AtWall;
    forall c: Index | s.p.IsCell(c)
      ensures CellValue(s.p, c, s.x) == 0.0
    {
      assert Shows(s.p, P, s.o, c, s.x, X);
    }
  }
}
