/** Sums over lines, planes and boxes of cells; the three axes may be summed in any order. */
module Sums {
  import opened Layout
  import opened Frames

  /** The first m cells of the line along axis k through (a, b); lo is the first coordinate of a box. */
  ghost function SumLine(f: Index -> real, lo: int, k: nat, a: int, b: int, m: nat): real {
    if m == 0 then 0.0 else SumLine(f, lo, k, a, b, m - 1) + f(PlaneCell(k, a, b, lo + m - 1))
  }

  ghost function SumPlane(f: Index -> real, lo: int, k: nat, b: int, na: nat, m: nat): real {
    if na == 0 then 0.0 else SumPlane(f, lo, k, b, na - 1, m) + SumLine(f, lo, k, lo + na - 1, b, m)
  }

  ghost function SumBox(f: Index -> real, lo: int, k: nat, nb: nat, na: nat, m: nat): real {
    if nb == 0 then 0.0 else SumBox(f, lo, k, nb - 1, na, m) + SumPlane(f, lo, k, lo + nb - 1, na, m)
  }

  lemma {:induction false} EmptyLines(f: Index -> real, lo: int, k: nat, b: int, na: nat)
    ensures SumPlane(f, lo, k, b, na, 0) == 0.0
  {
    if na > 0 {
      EmptyLines(f, lo, k, b, na - 1);
    }
  }

  /** One more cell in every x line of a plane is one more y line. */
  lemma {:induction false} GrowRows(f: Index -> real, lo: int, z: int, ny: nat, m: nat)
    ensures SumPlane(f, lo, 2, z, ny, m + 1) == SumPlane(f, lo, 2, z, ny, m) + SumLine(f, lo, 1, lo + m, z, ny)
  {
    if ny > 0 {
      GrowRows(f, lo, z, ny - 1, m);
      assert PlaneCell(2, lo + ny - 1, z, lo + m) == PlaneCell(1, lo + m, z, lo + ny - 1);
    }
  }

  lemma {:induction false} SwapPlane(f: Index -> real, lo: int, z: int, nx: nat, ny: nat)
    ensures SumPlane(f, lo, 1, z, nx, ny) == SumPlane(f, lo, 2, z, ny, nx)
  {
    if nx == 0 {
      EmptyLines(f, lo, 2, z, ny);
    } else {
      SwapPlane(f, lo, z, nx - 1, ny);
      GrowRows(f, lo, z, ny, nx - 1);
    }
  }

  lemma {:induction false} RowsFirst(f: Index -> real, lo: int, nz: nat, nx: nat, ny: nat)
    ensures SumBox(f, lo, 1, nz, nx, ny) == SumBox(f, lo, 2, nz, ny, nx)
  {
    if nz > 0 {
      RowsFirst(f, lo, nz - 1, nx, ny);
      SwapPlane(f, lo, lo + nz - 1, nx, ny);
    }
  }

  /** One more cell in every z line of a plane y = const is one more x line. */
  lemma {:induction false} GrowColumns(f: Index -> real, lo: int, y: int, nx: nat, m: nat)
    ensures SumPlane(f, lo, 0, y, nx, m + 1) == SumPlane(f, lo, 0, y, nx, m) + SumLine(f, lo, 2, y, lo + m, nx)
  {
    if nx > 0 {
      GrowColumns(f, lo, y, nx - 1, m);
      assert PlaneCell(0, lo + nx - 1, y, lo + m) == PlaneCell(2, y, lo + m, lo + nx - 1);
    }
  }

  lemma {:induction false} GrowBox(f: Index -> real, lo: int, ny: nat, nx: nat, m: nat)
    ensures SumBox(f, lo, 0, ny, nx, m + 1) == SumBox(f, lo, 0, ny, nx, m) + SumPlane(f, lo, 2, lo + m, ny, nx)
  {
    if ny > 0 {
      GrowBox(f, lo, ny - 1, nx, m);
      GrowColumns(f, lo, lo + ny - 1, nx, m);
    }
  }

  lemma {:induction false} EmptyPlanes(f: Index -> real, lo: int, k: nat, nb: nat, na: nat)
    ensures SumBox(f, lo, k, nb, na, 0) == 0.0
  {
    if nb > 0 {
      EmptyPlanes(f, lo, k, nb - 1, na);
      EmptyLines(f, lo, k, lo + nb - 1, na);
    }
  }

  lemma {:induction false} ColumnsFirst(f: Index -> real, lo: int, ny: nat, nx: nat, nz: nat)
    ensures SumBox(f, lo, 0, ny, nx, nz) == SumBox(f, lo, 2, nz, ny, nx)
  {
    if nz == 0 {
      EmptyPlanes(f, lo, 0, ny, nx);
    } else {
      ColumnsFirst(f, lo, ny, nx, nz - 1);
      GrowBox(f, lo, ny, nx, nz - 1);
    }
  }

  /** Sums that cancel on every line cancel on the box. */
  lemma {:induction false} PlaneCancels(f: Index -> real, h: Index -> real, lo: int, k: nat, b: int, na: nat, m: nat)
    requires forall a | lo <= a < lo + na :: SumLine(f, lo, k, a, b, m) == -SumLine(h, lo, k, a, b, m)
    ensures SumPlane(f, lo, k, b, na, m) == -SumPlane(h, lo, k, b, na, m)
  {
    if na > 0 {
      PlaneCancels(f, h, lo, k, b, na - 1, m);
    }
  }

  lemma {:induction false} BoxCancels(f: Index -> real, h: Index -> real, lo: int, k: nat, nb: nat, na: nat, m: nat)
    requires forall a, b | lo <= a < lo + na && lo <= b < lo + nb ::
               SumLine(f, lo, k, a, b, m) == -SumLine(h, lo, k, a, b, m)
    ensures SumBox(f, lo, k, nb, na, m) == -SumBox(h, lo, k, nb, na, m)
  {
    if nb > 0 {
      BoxCancels(f, h, lo, k, nb - 1, na, m);
      PlaneCancels(f, h, lo, k, lo + nb - 1, na, m);
    }
  }

  /** The cells of a frame, in the order of the loops. */
  ghost function Total(g: Frame, f: Index -> real): real
    requires g.Sized()
  {
    SumBox(f, g.stm, 2, g.n.z, g.n.y, g.n.x)
  }

  /** r = e + f + h + s cell by cell. */
  lemma {:induction false} LineAdds(e: Index -> real, f: Index -> real, h: Index -> real, s: Index -> real,
                                    r: Index -> real,
                                    lo: int, a: int, b: int, m: nat)
    requires forall i | lo <= i < lo + m :: var c := PlaneCell(2, a, b, i); r(c) == e(c) + f(c) + h(c) + s(c)
    ensures SumLine(r, lo, 2, a, b, m) ==
            SumLine(e, lo, 2, a, b, m) + SumLine(f, lo, 2, a, b, m) + SumLine(h, lo, 2, a, b, m)
                + SumLine(s, lo, 2, a, b, m)
  {
    if m > 0 {
      LineAdds(e, f, h, s, r, lo, a, b, m - 1);
    }
  }

  lemma {:induction false} PlaneAdds(e: Index -> real, f: Index -> real, h: Index -> real, s: Index -> real,
                                     r: Index -> real,
                                     lo: int, b: int, na: nat, m: nat)
    requires forall i, a | lo <= i < lo + m && lo <= a < lo + na ::
               var c := PlaneCell(2, a, b, i); r(c) == e(c) + f(c) + h(c) + s(c)
    ensures SumPlane(r, lo, 2, b, na, m) ==
            SumPlane(e, lo, 2, b, na, m) + SumPlane(f, lo, 2, b, na, m) + SumPlane(h, lo, 2, b, na, m)
                + SumPlane(s, lo, 2, b, na, m)
  {
    if na > 0 {
      PlaneAdds(e, f, h, s, r, lo, b, na - 1, m);
      LineAdds(e, f, h, s, r, lo, lo + na - 1, b, m);
    }
  }

  lemma {:induction false} BoxAdds(e: Index -> real, f: Index -> real, h: Index -> real, s: Index -> real,
                                   r: Index -> real,
                                   lo: int, nb: nat, na: nat, m: nat)
    requires forall i, a, b | lo <= i < lo + m && lo <= a < lo + na && lo <= b < lo + nb ::
               var c := PlaneCell(2, a, b, i); r(c) == e(c) + f(c) + h(c) + s(c)
    ensures SumBox(r, lo, 2, nb, na, m) ==
            SumBox(e, lo, 2, nb, na, m) + SumBox(f, lo, 2, nb, na, m) + SumBox(h, lo, 2, nb, na, m)
                + SumBox(s, lo, 2, nb, na, m)
  {
    if nb > 0 {
      BoxAdds(e, f, h, s, r, lo, nb - 1, na, m);
      PlaneAdds(e, f, h, s, r, lo, lo + nb - 1, na, m);
    }
  }

  /** Non-negative terms: every sum is non-negative and at least as large as any of its terms. */
  lemma {:induction false} LineBounds(f: Index -> real, lo: int, a: int, b: int, m: nat)
    requires forall c :: f(c) >= 0.0
    ensures SumLine(f, lo, 2, a, b, m) >= 0.0
    ensures forall i | lo <= i < lo + m :: f(PlaneCell(2, a, b, i)) <= SumLine(f, lo, 2, a, b, m)
  {
    if m > 0 {
      LineBounds(f, lo, a, b, m - 1);
    }
  }

  lemma {:induction false} PlaneBounds(f: Index -> real, lo: int, b: int, na: nat, m: nat)
    requires forall c :: f(c) >= 0.0
    ensures SumPlane(f, lo, 2, b, na, m) >= 0.0
    ensures forall i, a | lo <= i < lo + m && lo <= a < lo + na ::
            f(PlaneCell(2, a, b, i)) <= SumPlane(f, lo, 2, b, na, m)
  {
    if na > 0 {
      PlaneBounds(f, lo, b, na - 1, m);
      LineBounds(f, lo, lo + na - 1, b, m);
    }
  }

  lemma {:induction false} BoxBounds(f: Index -> real, lo: int, nb: nat, na: nat, m: nat)
    requires forall c :: f(c) >= 0.0
    ensures SumBox(f, lo, 2, nb, na, m) >= 0.0
    ensures forall i, a, b | lo <= i < lo + m && lo <= a < lo + na && lo <= b < lo + nb ::
              f(PlaneCell(2, a, b, i)) <= SumBox(f, lo, 2, nb, na, m)
  {
    if nb > 0 {
      BoxBounds(f, lo, nb - 1, na, m);
      PlaneBounds(f, lo, lo + nb - 1, na, m);
    }
  }
}
