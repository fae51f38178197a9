/**
 Row-major addresses of the solver's three-dimensional arrays
 (jupiter/common_util.h, calc_address and calc_struct_index).  Every field, every
 message buffer and the rank grid itself are laid out this way.
 */
module Layout {

  datatype Option<+T> = None | Some(value: T)

  /** The extents of a three-dimensional array. */
  datatype Dims = Dims(mx: nat, my: nat, mz: nat) {

    predicate Has(x: int, y: int, z: int) {
      0 <= x < mx && 0 <= y < my && 0 <= z < mz
    }

    function Size(): nat {
      mx * my * mz
    }
  }

  datatype Index = Index(x: int, y: int, z: int)

  /** calc_address: the offset of cell (x, y, z). */
  function Addr(d: Dims, x: int, y: int, z: int): (a: int)
    ensures d.Has(x, y, z) ==> 0 <= a < d.Size()
  {
    AddrBound(d, x, y, z);
    (z * d.my + y) * d.mx + x
  }

  /** Place j of row i, with n places in each of m rows. */
  lemma Within(i: int, j: int, n: nat, m: nat)
    requires 0 <= i < m && 0 <= j < n
    ensures 0 <= i * n && 0 <= i * n + j < m * n
  {
    MulStep(i, m, n);
    MulStep(0, i + 1, n);
    Times(i, n);
  }

  lemma Times(i: int, n: int)
    ensures (i + 1) * n == i * n + n
  {
  }

  lemma Cube(a: int, b: int, c: int)
    ensures c * b * a == a * b * c && c * (a * b) == a * b * c
  {
  }

  lemma AddrBound(d: Dims, x: int, y: int, z: int)
    ensures d.Has(x, y, z) ==> 0 <= (z * d.my + y) * d.mx + x < d.Size()
  {
    if d.Has(x, y, z) {
      Within(z, y, d.my, d.mz);
      Within(z * d.my + y, x, d.mx, d.mz * d.my);
      Cube(d.mx, d.my, d.mz);
    }
  }

  lemma AddrSplits(d: Dims, x: int, y: int, z: int)
    ensures Addr(d, x, y, z) == z * (d.mx * d.my) + (y * d.mx + x)
  {
    SplitRing(z, y, d.my, d.mx);
  }

  lemma SplitRing(z: int, y: int, my: int, mx: int)
    ensures (z * my + y) * mx == z * (mx * my) + y * mx
  {
  }

  /** One cell further on an axis. */
  lemma ShiftY(d: Dims, x: int, y: int, z: int)
    ensures Addr(d, x, y + 1, z) == Addr(d, x, y, z) + d.mx
  {
    var row := z * d.my + y;
    Times(row, d.mx);
  }

  lemma ShiftZ(d: Dims, x: int, y: int, z: int)
    ensures Addr(d, x, y, z + 1) == Addr(d, x, y, z) + d.mx * d.my
  {
    AddrSplits(d, x, y, z);
    AddrSplits(d, x, y, z + 1);
    hide Addr;
    Times(z, d.mx * d.my);
  }

  lemma ShiftX(d: Dims, x: int, y: int, z: int)
    ensures Addr(d, x + 1, y, z) == Addr(d, x, y, z) + 1
  {
  }

  /** calc_struct_index: the cell at an offset, or None for an offset that is out of bounds. */
  function StructIndex(addr: int, d: Dims): (r: Option<Index>)
    requires d.mx > 0 && d.my > 0
  {
    if addr < 0 then None
    else
      var mxy := d.mx * d.my;
      var k := addr / mxy;
      var rest := addr % mxy;
      var j := rest / d.mx;
      var i := rest % d.mx;
      if !(0 <= i < d.mx) then None
      else if !(0 <= j < d.my) then None
      else if !(0 <= k < d.mz) then None
      else Some(Index(i, j, k))
  }

  /** Multiplication by a natural number keeps the order, with a gap of one factor. */
  lemma MulStep(a: int, b: int, n: nat)
    ensures a < b ==> a * n + n <= b * n
  {
    if a < b {
      var gap: nat := b - a - 1;
      assert 0 <= gap * n;
      assert b * n == (a + 1 + gap) * n == a * n + n + gap * n;
    }
  }

  /** Seven planes of m entries each. */
  lemma PlaneBound(m: nat, a: int, q: int)
    ensures 0 <= a < m && 0 <= q < 7 ==> 0 <= a + q * m < 7 * m
  {
    MulStep(q, 7, m);
  }

  lemma DivModUnique(a: int, n: int, q: int, r: int)
    requires 0 <= r < n && a == q * n + r
    ensures a / n == q && a % n == r
  {
    DivMod(a, n);
    MulStep(a / n, q, n);
    MulStep(q, a / n, n);
  }

  lemma DivMod(a: int, n: int)
    requires n > 0
    ensures a == (a / n) * n + a % n && 0 <= a % n < n
  {
  }

  /** calc_struct_index undoes calc_address on every cell ... */
  lemma StructIndexOfAddr(d: Dims, x: int, y: int, z: int)
    requires d.Has(x, y, z)
    ensures StructIndex(Addr(d, x, y, z), d) == Some(Index(x, y, z))
  {
    var a, mxy, rest := Addr(d, x, y, z), d.mx * d.my, y * d.mx + x;
    AddrSplits(d, x, y, z);
    Within(y, x, d.mx, d.my);
    Commute(d.mx, d.my);
    hide Addr, Dims.Size;
    DivModUnique(a, mxy, z, rest);
    DivModUnique(rest, d.mx, y, x);
  }

  lemma Commute(a: int, b: int)
    ensures a * b == b * a
  {
  }

  /** ... calc_address undoes calc_struct_index, and the offsets it accepts are exactly those of cells. */
  lemma AddrOfStructIndex(d: Dims, addr: int)
    requires d.mx > 0 && d.my > 0
    ensures StructIndex(addr, d).Some? <==> 0 <= addr < d.Size()
    ensures StructIndex(addr, d).Some? ==>
              var c := StructIndex(addr, d).value;
              d.Has(c.x, c.y, c.z) && Addr(d, c.x, c.y, c.z) == addr
  {
    if addr >= 0 {
      PlanePositive(d);
      var mxy := d.mx * d.my;
      var k, rest := addr / mxy, addr % mxy;
      var j, i := rest / d.mx, rest % d.mx;
      DivMod(addr, mxy);
      DivMod(rest, d.mx);
      RowFits(j, i, d.mx, d.my);
      PlaneFits(k, rest, mxy, d.mz);
      AddrSplits(d, i, j, k);
      SizeIsPlanes(d);
      hide Addr, Dims.Size;
    }
  }

  lemma PlanePositive(d: Dims)
    requires d.mx > 0 && d.my > 0
    ensures d.mx * d.my > 0
  {
    MulStep(0, d.mx, d.my);
  }

  lemma SizeIsPlanes(d: Dims)
    ensures d.Size() == d.mz * (d.mx * d.my)
  {
    Cube(d.mx, d.my, d.mz);
  }

  /** A row number inside a plane is below my. */
  lemma RowFits(j: int, i: int, mx: nat, my: nat)
    requires 0 <= i < mx && 0 <= j * mx + i < mx * my
    ensures 0 <= j < my
  {
    MulStep(j, 0, mx);
    Commute(mx, my);
    MulLe(my, j, mx);
  }

  lemma MulLe(a: int, b: int, n: nat)
    ensures a <= b ==> a * n <= b * n && n * a <= n * b
  {
    MulStep(a, b, n);
    Commute(a, n);
    Commute(b, n);
  }

  /** A plane number is below mz exactly when the address is below the size. */
  lemma PlaneFits(k: int, rest: int, mxy: nat, mz: nat)
    requires 0 <= rest < mxy && 0 <= k * mxy + rest
    ensures 0 <= k
    ensures k < mz <==> k * mxy + rest < mz * mxy
  {
    MulStep(k, 0, mxy);
    MulStep(k, mz, mxy);
    MulLe(mz, k, mxy);
  }

  /** Two cells of an array never share an address. */
  lemma AddrInjective(d: Dims, x: int, y: int, z: int, x': int, y': int, z': int)
    requires d.Has(x, y, z) && d.Has(x', y', z')
    ensures Addr(d, x, y, z) == Addr(d, x', y', z') ==> x == x' && y == y' && z == z'
  {
    hide Addr, StructIndex;
    StructIndexOfAddr(d, x, y, z);
    StructIndexOfAddr(d, x', y', z');
  }

  /** The cell at a valid offset. */
  function CellAt(d: Dims, addr: int): (c: Index)
    requires 0 <= addr < d.Size()
    ensures d.Has(c.x, c.y, c.z) && Addr(d, c.x, c.y, c.z) == addr
  {
    SizePositive(d);
    AddrOfStructIndex(d, addr);
    StructIndex(addr, d).value
  }

  lemma SizePositive(d: Dims)
    ensures d.Size() > 0 ==> d.mx > 0 && d.my > 0 && d.mz > 0
  {
    if d.mx == 0 || d.my == 0 {
      assert d.mx * d.my == 0;
    }
  }

  /** Lexicographic order of the loop nests `for z, for y, for x`. */
  predicate Before(x: int, y: int, z: int, cx: int, cy: int, cz: int) {
    z < cz || (z == cz && (y < cy || (y == cy && x < cx)))
  }
}
