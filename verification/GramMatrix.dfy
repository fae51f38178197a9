/**
 calc_GramMat_local (jupiter/cacg.c, 11-120): the inner products of the slots of V with those of Z_ and
 W over a rank's cells.  The z planes are dealt out to threads, every thread sums into tables of its
 own, and the tables are added up in a critical region, in any order.  The small tables have two
 indices instead of flattened ones.
 */
module GramMatrix {
  import opened Layout
  import opened Vectors

  /** nx * ny * nz cells at offset (sx, sm, sm) of slots with extents d; s + 1 slots in each of V, Z and W. */
  datatype Kernel = Kernel(d: Dims, sx: nat, sm: nat, nx: nat, ny: nat, nz: nat, s: nat, V: seq<real>, Z: seq<real>,
      W: seq<real>) {

    predicate Valid() {
      && s >= 1 && nx + sx <= d.mx && ny + sm <= d.my && nz + sm <= d.mz
      && |V| == |Z| == |W| == (s + 1) * d.Size()
    }

    /** The value of slot l of P at a cell: P[l * m + j]. */
    function At(P: seq<real>, l: nat, jx: nat, jy: nat, jz: nat): real
      requires Valid() && |P| == (s + 1) * d.Size() && l <= s && jx < nx && jy < ny && jz < nz
    {
      Within(l, Addr(d, jx + sx, jy + sm, jz + sm), d.Size(), s + 1);
      P[l * d.Size() + Addr(d, jx + sx, jy + sm, jz + sm)]
    }

    /** Column r of the Gram matrix belongs to slot r of Z, or from s on to a slot of W. */
    function Right(r: nat, jx: nat, jy: nat, jz: nat): real
      requires Valid() && r <= 2 * s && jx < nx && jy < ny && jz < nz
    {
      if r < s then At(Z, r, jx, jy, jz) else At(W, r - s, jx, jy, jz)
    }

    function Product(l: nat, r: nat, jx: nat, jy: nat, jz: nat): real
      requires Valid() && l <= s && r <= 2 * s && jx < nx && jy < ny && jz < nz
    {
      At(V, l, jx, jy, jz) * Right(r, jx, jy, jz)
    }
  }

  /** The inner product over the first n cells of a row, the first n rows of a plane, and n planes. */
  function RowDot(k: Kernel, l: nat, r: nat, jy: nat, jz: nat, n: nat): real
    requires k.Valid() && l <= k.s && r <= 2 * k.s && jy < k.ny && jz < k.nz && n <= k.nx
  {
    if n == 0 then 0.0 else RowDot(k, l, r, jy, jz, n - 1) + k.Product(l, r, n - 1, jy, jz)
  }

  function PlaneDot(k: Kernel, l: nat, r: nat, jz: nat, n: nat): real
    requires k.Valid() && l <= k.s && r <= 2 * k.s && jz < k.nz && n <= k.ny
  {
    if n == 0 then 0.0 else PlaneDot(k, l, r, jz, n - 1) + RowDot(k, l, r, n - 1, jz, k.nx)
  }

  function BoxDot(k: Kernel, l: nat, r: nat, n: nat): real
    requires k.Valid() && l <= k.s && r <= 2 * k.s && n <= k.nz
  {
    if n == 0 then 0.0 else BoxDot(k, l, r, n - 1) + PlaneDot(k, l, r, n - 1, k.ny)
  }

  /** The part of the first n planes that a thread owns. */
  function OwnedDot(k: Kernel, owner: seq<nat>, thid: nat, l: nat, r: nat, n: nat): real
    requires k.Valid() && l <= k.s && r <= 2 * k.s && n <= k.nz == |owner|
  {
    if n == 0 then 0.0
    else OwnedDot(k, owner, thid, l, r, n - 1) + if owner[n - 1] == thid then PlaneDot(k, l, r, n - 1, k.ny) else 0.0
  }

  /** What the threads of a list have together. */
  function TeamDot(k: Kernel, owner: seq<nat>, team: seq<nat>, l: nat, r: nat, n: nat): real
    requires k.Valid() && l <= k.s && r <= 2 * k.s && n <= k.nz == |owner|
  {
    if |team| == 0 then 0.0
    else TeamDot(k, owner, team[..|team| - 1], l, r, n) + OwnedDot(k, owner, team[|team| - 1], l, r, n)
  }

  ghost predicate NoDuplicates(team: seq<nat>) {
    forall a, b | 0 <= a < b < |team| :: team[a] != team[b]
  }

  lemma {:induction false} EmptyTeam(k: Kernel, owner: seq<nat>, team: seq<nat>, l: nat, r: nat)
    requires k.Valid() && l <= k.s && r <= 2 * k.s && k.nz == |owner|
    ensures TeamDot(k, owner, team, l, r, 0) == 0.0
  {
    if |team| > 0 {
      EmptyTeam(k, owner, team[..|team| - 1], l, r);
    }
  }

  /** One more plane goes to exactly one thread of the team. */
  lemma {:induction false} TeamGrows(k: Kernel, owner: seq<nat>, team: seq<nat>, l: nat, r: nat, n: nat)
    requires k.Valid() && l <= k.s && r <= 2 * k.s && n < k.nz == |owner| && NoDuplicates(team)
    ensures TeamDot(k, owner, team, l, r, n + 1) ==
            TeamDot(k, owner, team, l, r, n) + if owner[n] in team then PlaneDot(k, l, r, n, k.ny) else 0.0
  {
    if |team| > 0 {
      var rest := team[..|team| - 1];
      TeamGrows(k, owner, rest, l, r, n);
      assert team == rest + [team[|team| - 1]];
    }
  }

  /**
   However the planes are dealt out, and in whatever order the threads add up, the team has the
   whole inner product.
   */
  lemma {:induction false} TeamHasAll(k: Kernel, owner: seq<nat>, team: seq<nat>, l: nat, r: nat, n: nat)
    requires k.Valid() && l <= k.s && r <= 2 * k.s && n <= k.nz == |owner| && NoDuplicates(team)
    requires forall jz | 0 <= jz < |owner| :: owner[jz] in team
    ensures TeamDot(k, owner, team, l, r, n) == BoxDot(k, l, r, n)
  {
    if n == 0 {
      EmptyTeam(k, owner, team, l, r);
    } else {
      TeamHasAll(k, owner, team, l, r, n - 1);
      TeamGrows(k, owner, team, l, r, n - 1);
    }
  }

  /** The row of the tables in which column r of the Gram matrix is summed up. */
  function TableRow(s: nat, r: nat): (i: nat)
    requires s >= 1 && r <= 2 * s
    ensures i < s
  {
    if r < s then r else if r < 2 * s then r - s else s - 1
  }

  /** The three tables of a thread, or their sums. */
  class Tables {
    const one: array2<real>
    const two: array2<real>
    const three: array2<real>

    ghost predicate Valid(s: nat) {
      && s >= 1
      && one.Length0 == one.Length1 == s + 1 && two.Length0 == two.Length1 == s + 1
      && three.Length0 == three.Length1 == s + 1
      && one != two && one != three && two != three
    }

    constructor (s: nat)
      requires s >= 1
      ensures Valid(s) && fresh(one) && fresh(two) && fresh(three)
      ensures forall l: nat, r: nat | l <= s && r <= 2 * s :: Entry(s, l, r) == 0.0
    {
      one := new real[s + 1, s + 1] ((i, l) => 0.0);
      two := new real[s + 1, s + 1] ((i, l) => 0.0);
      three := new real[s + 1, s + 1] ((i, l) => 0.0);
    }

    /** The inner product of slot l of V with column r, as far as it is summed up. */
    ghost function Entry(s: nat, l: nat, r: nat): real
      requires Valid(s) && l <= s && r <= 2 * s
      reads one, two, three
    {
      var i := TableRow(s, r);
      if r < s then one[i, l] else if r < 2 * s then two[i, l] else three[i, l]
    }
  }

  /** What a thread has summed up for row l and column r when it has come to row jy of plane jz. */
  function Amount(k: Kernel, owner: seq<nat>, thid: nat, l: nat, r: nat, jz: nat, jy: nat): real
    requires k.Valid() && l <= k.s && r <= 2 * k.s && jz < k.nz == |owner| && jy <= k.ny
  {
    OwnedDot(k, owner, thid, l, r, jz) + PlaneDot(k, l, r, jz, jy)
  }

  lemma AmountGrows(k: Kernel, owner: seq<nat>, thid: nat, l: nat, r: nat, jz: nat, jy: nat)
    requires k.Valid() && l <= k.s && r <= 2 * k.s && jz < k.nz == |owner| && jy < k.ny
    ensures Amount(k, owner, thid, l, r, jz, jy + 1) ==
            Amount(k, owner, thid, l, r, jz, jy) + RowDot(k, l, r, jy, jz, k.nx)
  {
    hide Kernel.At, Addr, Dims.Size, OwnedDot, RowDot;
  }

  /** The innermost loop, for a table row before the last used one. */
  method AddRow(k: Kernel, jy: nat, jz: nat, i: nat, l: nat, t: Tables)
    requires k.Valid() && t.Valid(k.s) && jy < k.ny && jz < k.nz && i < k.s - 1 && l <= k.s
    modifies t.one, t.two, t.three
    ensures forall b: nat, r: nat | b <= k.s && r <= 2 * k.s ::
              t.Entry(k.s, b, r) ==
              old(t.Entry(k.s, b, r)) + if b == l && TableRow(k.s, r) == i then RowDot(k, l, r, jy, jz, k.nx) else 0.0
  {
    hide Kernel.At, Addr, Dims.Size;
    for jx := 0 to k.nx
      invariant t.one[i, l] == old(t.one[i, l]) + RowDot(k, l, i, jy, jz, jx)
      invariant t.two[i, l] == old(t.two[i, l]) + RowDot(k, l, k.s + i, jy, jz, jx)
      invariant forall a, b | 0 <= a <= k.s && 0 <= b <= k.s ::
                  && ((a, b) != (i, l) ==> t.one[a, b] == old(t.one[a, b]) && t.two[a, b] == old(t.two[a, b]))
                  && t.three[a, b] == old(t.three[a, b])
    {
      t.one[i, l] := t.one[i, l] + k.At(k.V, l, jx, jy, jz) * k.At(k.Z, i, jx, jy, jz);
      t.two[i, l] := t.two[i, l] + k.At(k.V, l, jx, jy, jz) * k.At(k.W, i, jx, jy, jz);
    }
  }

  /** The same for the last used table row, which also takes in the last slot of W. */
  method AddLastRow(k: Kernel, jy: nat, jz: nat, l: nat, t: Tables)
    requires k.Valid() && t.Valid(k.s) && jy < k.ny && jz < k.nz && l <= k.s
    modifies t.one, t.two, t.three
    ensures forall b: nat, r: nat | b <= k.s && r <= 2 * k.s ::
              t.Entry(k.s, b, r) ==
              old(t.Entry(k.s, b, r)) + if b == l && TableRow(k.s, r) == k.s - 1 then RowDot(k, l, r, jy, jz, k.nx)
                  else 0.0
  {
    hide Kernel.At, Addr, Dims.Size;
    var i := k.s - 1;
    for jx := 0 to k.nx
      invariant t.one[i, l] == old(t.one[i, l]) + RowDot(k, l, i, jy, jz, jx)
      invariant t.two[i, l] == old(t.two[i, l]) + RowDot(k, l, k.s + i, jy, jz, jx)
      invariant t.three[i, l] == old(t.three[i, l]) + RowDot(k, l, 2 * k.s, jy, jz, jx)
      invariant forall a, b | 0 <= a <= k.s && 0 <= b <= k.s && (a, b) != (i, l) ::
                  t.one[a, b] == old(t.one[a, b]) && t.two[a, b] == old(t.two[a, b]) &&
                      t.three[a, b] == old(t.three[a, b])
    {
      t.one[i, l] := t.one[i, l] + k.At(k.V, l, jx, jy, jz) * k.At(k.Z, i, jx, jy, jz);
      t.two[i, l] := t.two[i, l] + k.At(k.V, l, jx, jy, jz) * k.At(k.W, i, jx, jy, jz);
      t.three[i, l] := t.three[i, l] + k.At(k.V, l, jx, jy, jz) * k.At(k.W, k.s, jx, jy, jz);
    }
  }

  /** Whether column r of row l has been taken before table row i0, place l0. */
  predicate Taken(s: nat, l: nat, r: nat, i0: nat, l0: nat)
    requires s >= 1 && r <= 2 * s
  {
    TableRow(s, r) < i0 || (TableRow(s, r) == i0 && l < l0)
  }

  /** The tables when row jy of plane jz has been added for what is taken before table row i0, place l0. */
  ghost predicate Progress(k: Kernel, owner: seq<nat>, thid: nat, t: Tables, jz: nat, jy: nat, i0: nat, l0: nat)
    requires k.Valid() && t.Valid(k.s) && jz < k.nz == |owner| && jy < k.ny
    reads t.one, t.two, t.three
  {
    forall l: nat, r: nat | l <= k.s && r <= 2 * k.s ::
      t.Entry(k.s, l, r) ==
          Amount(k, owner, thid, l, r, jz, jy) + if Taken(k.s, l, r, i0, l0) then RowDot(k, l, r, jy, jz, k.nx) else 0.0
  }

  /** Between two rows of cells. */
  ghost predicate Rows(k: Kernel, owner: seq<nat>, thid: nat, t: Tables, jz: nat, n: nat)
    requires k.Valid() && t.Valid(k.s) && jz < k.nz == |owner| && n <= k.ny
    reads t.one, t.two, t.three
  {
    forall l: nat, r: nat | l <= k.s && r <= 2 * k.s :: t.Entry(k.s, l, r) == Amount(k, owner, thid, l, r, jz, n)
  }

  /** Between two planes. */
  ghost predicate Planes(k: Kernel, owner: seq<nat>, thid: nat, t: Tables, n: nat)
    requires k.Valid() && t.Valid(k.s) && n <= k.nz == |owner|
    reads t.one, t.two, t.three
  {
    forall l: nat, r: nat | l <= k.s && r <= 2 * k.s :: t.Entry(k.s, l, r) == OwnedDot(k, owner, thid, l, r, n)
  }

  /** One row of cells, for all entries of the tables. */
  method AddCells(k: Kernel, ghost owner: seq<nat>, ghost thid: nat, jy: nat, jz: nat, t: Tables)
    requires k.Valid() && t.Valid(k.s) && jz < k.nz == |owner| && jy < k.ny && Rows(k, owner, thid, t, jz, jy)
    modifies t.one, t.two, t.three
    ensures Rows(k, owner, thid, t, jz, jy + 1)
  {
    hide Kernel.At, Addr, Dims.Size, OwnedDot, PlaneDot, RowDot, Amount, Tables.Entry, TableRow;
    for i := 0 to k.s - 1
      invariant Progress(k, owner, thid, t, jz, jy, i, 0)
    {
      for l := 0 to k.s + 1
        invariant Progress(k, owner, thid, t, jz, jy, i, l)
      {
        AddRow(k, jy, jz, i, l, t);
      }
    }
    for l := 0 to k.s + 1
      invariant Progress(k, owner, thid, t, jz, jy, k.s - 1, l)
    {
      AddLastRow(k, jy, jz, l, t);
    }
    forall l: nat, r: nat | l <= k.s && r <= 2 * k.s
      ensures t.Entry(k.s, l, r) == Amount(k, owner, thid, l, r, jz, jy + 1)
    {
      AmountGrows(k, owner, thid, l, r, jz, jy);
    }
  }

  lemma AmountAtEnds(k: Kernel, owner: seq<nat>, thid: nat, l: nat, r: nat, jz: nat)
    requires k.Valid() && l <= k.s && r <= 2 * k.s && jz < k.nz == |owner|
    ensures Amount(k, owner, thid, l, r, jz, 0) == OwnedDot(k, owner, thid, l, r, jz)
    ensures OwnedDot(k, owner, thid, l, r, jz + 1) ==
            if owner[jz] == thid then Amount(k, owner, thid, l, r, jz, k.ny) else OwnedDot(k, owner, thid, l, r, jz)
  {
    hide Kernel.At, Addr, Dims.Size, RowDot;
  }

  /** One plane of the loop over z. */
  method AddPlane(k: Kernel, owner: seq<nat>, thid: nat, jz: nat, t: Tables)
    requires k.Valid() && t.Valid(k.s) && jz < k.nz == |owner| && Planes(k, owner, thid, t, jz)
    modifies t.one, t.two, t.three
    ensures Planes(k, owner, thid, t, jz + 1)
  {
    hide Kernel.At, Addr, Dims.Size, OwnedDot, PlaneDot, RowDot, Amount, Tables.Entry;
    forall l: nat, r: nat | l <= k.s && r <= 2 * k.s
      ensures Amount(k, owner, thid, l, r, jz, 0) == OwnedDot(k, owner, thid, l, r, jz)
      ensures OwnedDot(k, owner, thid, l, r, jz + 1) ==
              if owner[jz] == thid then Amount(k, owner, thid, l, r, jz, k.ny) else OwnedDot(k, owner, thid, l, r, jz)
    {
      AmountAtEnds(k, owner, thid, l, r, jz);
    }
    if owner[jz] == thid {
      for jy := 0 to k.ny
        invariant Rows(k, owner, thid, t, jz, jy)
      {
        AddCells(k, owner, thid, jy, jz, t);
      }
    }
  }

  /** One thread: the planes it owns, into tables of its own. */
  method ThreadTables(k: Kernel, owner: seq<nat>, thid: nat) returns (t: Tables)
    requires k.Valid() && k.nz == |owner|
    ensures fresh(t.one) && fresh(t.two) && fresh(t.three) && t.Valid(k.s) && Planes(k, owner, thid, t, k.nz)
  {
    t := new Tables(k.s);
    NothingYet(k, owner, thid, t);
    hide Planes, Kernel.Valid;
    for jz := 0 to k.nz
      invariant t.Valid(k.s) && fresh(t.one) && fresh(t.two) && fresh(t.three)
      invariant Planes(k, owner, thid, t, jz)
    {
      AddPlane(k, owner, thid, jz, t);
    }
  }

  lemma NothingYet(k: Kernel, owner: seq<nat>, thid: nat, t: Tables)
    requires k.Valid() && k.nz == |owner| && t.Valid(k.s)
    requires forall l: nat, r: nat | l <= k.s && r <= 2 * k.s :: t.Entry(k.s, l, r) == 0.0
    ensures Planes(k, owner, thid, t, 0)
    ensures Summed(k, owner, [], t)
  {
    hide Kernel.At, Addr, Dims.Size, Tables.Entry;
    assert forall l: nat, r: nat | l <= k.s && r <= 2 * k.s ::
        OwnedDot(k, owner, thid, l, r, 0) == 0.0 == TeamDot(k, owner, [], l, r, k.nz);
  }

  /** The sums when the threads of a list have been through the critical region. */
  ghost predicate Summed(k: Kernel, owner: seq<nat>, team: seq<nat>, t: Tables)
    requires k.Valid() && t.Valid(k.s) && k.nz == |owner|
    reads t.one, t.two, t.three
  {
    forall l: nat, r: nat | l <= k.s && r <= 2 * k.s :: t.Entry(k.s, l, r) == TeamDot(k, owner, team, l, r, k.nz)
  }

  /** The critical region. */
  method AddUp(s: nat, t: Tables, sum: Tables)
    requires t.Valid(s) && sum.Valid(s) && {t.one, t.two, t.three} !! {sum.one, sum.two, sum.three}
    modifies sum.one, sum.two, sum.three
    ensures forall l: nat, r: nat | l <= s && r <= 2 * s ::
            sum.Entry(s, l, r) == old(sum.Entry(s, l, r)) + t.Entry(s, l, r)
  {
    for i := 0 to s + 1
      invariant forall a, b | 0 <= a <= s && 0 <= b <= s ::
                  && sum.one[a, b] == old(sum.one[a, b]) + (if a < i then t.one[a, b] else 0.0)
                  && sum.two[a, b] == old(sum.two[a, b]) + (if a < i then t.two[a, b] else 0.0)
                  && sum.three[a, b] == old(sum.three[a, b]) + (if a < i then t.three[a, b] else 0.0)
    {
      for l := 0 to s + 1
        invariant forall a, b | 0 <= a <= s && 0 <= b <= s ::
                    && sum.one[a, b] == old(sum.one[a, b]) + (if a < i || (a == i && b < l) then t.one[a, b] else 0.0)
                    && sum.two[a, b] == old(sum.two[a, b]) + (if a < i || (a == i && b < l) then t.two[a, b] else 0.0)
                    && sum.three[a, b] ==
                       old(sum.three[a, b]) + (if a < i || (a == i && b < l) then t.three[a, b] else 0.0)
      {
        sum.one[i, l] := sum.one[i, l] + t.one[i, l];
        sum.two[i, l] := sum.two[i, l] + t.two[i, l];
        sum.three[i, l] := sum.three[i, l] + t.three[i, l];
      }
    }
  }

  lemma TeamLonger(k: Kernel, owner: seq<nat>, team: seq<nat>, thid: nat, l: nat, r: nat)
    requires k.Valid() && l <= k.s && r <= 2 * k.s && k.nz == |owner|
    ensures TeamDot(k, owner, team + [thid], l, r, k.nz) ==
            TeamDot(k, owner, team, l, r, k.nz) + OwnedDot(k, owner, thid, l, r, k.nz)
  {
    hide Kernel.At, Addr, Dims.Size, OwnedDot;
    assert (team + [thid])[..|team|] == team;
  }

  /** One thread adds its part. */
  method AddThread(k: Kernel, owner: seq<nat>, ghost team: seq<nat>, thid: nat, sum: Tables)
    requires k.Valid() && k.nz == |owner| && sum.Valid(k.s) && Summed(k, owner, team, sum)
    modifies sum.one, sum.two, sum.three
    ensures Summed(k, owner, team + [thid], sum)
  {
    hide Kernel.At, Addr, Dims.Size, OwnedDot, TeamDot, Tables.Entry;
    var t := ThreadTables(k, owner, thid);
    AddUp(k.s, t, sum);
    forall l: nat, r: nat | l <= k.s && r <= 2 * k.s
      ensures TeamDot(k, owner, team + [thid], l, r, k.nz) ==
              TeamDot(k, owner, team, l, r, k.nz) + OwnedDot(k, owner, thid, l, r, k.nz)
    {
      TeamLonger(k, owner, team, thid, l, r);
    }
  }

  /** The two results, from the sums. */
  method CopyOut(s: nat, sum: Tables, Gkk1: array2<real>, Gkk: array2<real>)
    requires sum.Valid(s) && Gkk1.Length0 == Gkk1.Length1 == Gkk.Length0 == Gkk.Length1 == s + 1
    requires Gkk1 != Gkk && {Gkk1, Gkk} !! {sum.one, sum.two, sum.three}
    modifies Gkk1, Gkk
    ensures forall i: nat, l: nat | i < s && l <= s :: Gkk1[i, l] == sum.Entry(s, l, i)
    ensures forall i: nat, l: nat | i <= s && l <= s :: Gkk[l, i] == sum.Entry(s, l, s + i)
    ensures forall l: nat | l <= s :: Gkk1[s, l] == old(Gkk1[s, l])
  {
    for l := 0 to s + 1
      invariant forall i: nat, b: nat | i < s && b < l :: Gkk1[i, b] == sum.one[i, b] && Gkk[b, i] == sum.two[i, b]
      invariant forall b: nat | b < l :: Gkk[b, s] == sum.three[s - 1, b]
      invariant forall b: nat | b <= s :: Gkk1[s, b] == old(Gkk1[s, b])
    {
      for i := 0 to s
        invariant forall a: nat, b: nat | a < s && b < l :: Gkk1[a, b] == sum.one[a, b] && Gkk[b, a] == sum.two[a, b]
        invariant forall a: nat | a < i :: Gkk1[a, l] == sum.one[a, l] && Gkk[l, a] == sum.two[a, l]
        invariant forall b: nat | b < l :: Gkk[b, s] == sum.three[s - 1, b]
        invariant forall b: nat | b <= s :: Gkk1[s, b] == old(Gkk1[s, b])
      {
        Gkk1[i, l] := sum.one[i, l];
        Gkk[l, i] := sum.two[i, l];
      }
      Gkk[l, s] := sum.three[s - 1, l];
    }
  }

  /**
   The whole function: Gkk_1 and Gkk hold the inner products of V with Z_ and with W, whatever thread
   owns which plane and in whatever order the threads come to the critical region.
   */
  method GramLocal(k: Kernel, owner: seq<nat>, team: seq<nat>, Gkk1: array2<real>, Gkk: array2<real>)
    requires k.Valid() && k.nz == |owner| && NoDuplicates(team) && forall jz | 0 <= jz < |owner| :: owner[jz] in team
    requires Gkk1 != Gkk && Gkk1.Length0 == Gkk1.Length1 == Gkk.Length0 == Gkk.Length1 == k.s + 1
    modifies Gkk1, Gkk
    ensures forall i: nat, l: nat | i < k.s && l <= k.s :: Gkk1[i, l] == BoxDot(k, l, i, k.nz)
    ensures forall i: nat, l: nat | i <= k.s && l <= k.s :: Gkk[l, i] == BoxDot(k, l, k.s + i, k.nz)
    ensures forall l: nat | l <= k.s :: Gkk1[k.s, l] == old(Gkk1[k.s, l])
  {
    hide Kernel.At, Addr, Dims.Size, OwnedDot, TeamDot, BoxDot, Tables.Entry;
    var sum := new Tables(k.s);
    NothingYet(k, owner, 0, sum);
    for n := 0 to |team|
      invariant Summed(k, owner, team[..n], sum)
      invariant forall l: nat | l <= k.s :: Gkk1[k.s, l] == old(Gkk1[k.s, l])
    {
      AddThread(k, owner, team[..n], team[n], sum);
      assert team[..n] + [team[n]] == team[..n + 1];
    }
    assert team[..|team|] == team;
    CopyOut(k.s, sum, Gkk1, Gkk);
    forall l: nat, r: nat | l <= k.s && r <= 2 * k.s
      ensures TeamDot(k, owner, team, l, r, k.nz) == BoxDot(k, l, r, k.nz)
    {
      TeamHasAll(k, owner, team, l, r, k.nz);
    }
  }

  /** The values of a slot of P over n planes of cells, in loop order. */
  function RowVec(k: Kernel, P: seq<real>, l: nat, jy: nat, jz: nat, n: nat): (v: Vec)
    requires k.Valid() && |P| == |k.V| && l <= k.s && jy < k.ny && jz < k.nz && n <= k.nx
    ensures |v| == n
  {
    if n == 0 then [] else RowVec(k, P, l, jy, jz, n - 1) + [k.At(P, l, n - 1, jy, jz)]
  }

  function PlaneVec(k: Kernel, P: seq<real>, l: nat, jz: nat, n: nat): (v: Vec)
    requires k.Valid() && |P| == |k.V| && l <= k.s && jz < k.nz && n <= k.ny
  {
    if n == 0 then [] else PlaneVec(k, P, l, jz, n - 1) + RowVec(k, P, l, n - 1, jz, k.nx)
  }

  function BoxVec(k: Kernel, P: seq<real>, l: nat, n: nat): (v: Vec)
    requires k.Valid() && |P| == |k.V| && l <= k.s && n <= k.nz
  {
    if n == 0 then [] else BoxVec(k, P, l, n - 1) + PlaneVec(k, P, l, n - 1, k.ny)
  }

  /** The vector of unknowns a slot holds. */
  function Unknowns(k: Kernel, P: seq<real>, l: nat): Vec
    requires k.Valid() && |P| == |k.V| && l <= k.s
  {
    BoxVec(k, P, l, k.nz)
  }

  lemma {:induction false} RowVecAt(k: Kernel, P: seq<real>, l: nat, jy: nat, jz: nat, n: nat, jx: nat)
    requires k.Valid() && |P| == |k.V| && l <= k.s && jy < k.ny && jz < k.nz && jx < n <= k.nx
    ensures RowVec(k, P, l, jy, jz, n)[jx] == k.At(P, l, jx, jy, jz)
  {
    hide Kernel.At, Dims.Size;
    if jx < n - 1 {
      RowVecAt(k, P, l, jy, jz, n - 1, jx);
    }
  }

  lemma {:induction false} PlaneVecAt(k: Kernel, P: seq<real>, l: nat, jz: nat, n: nat, jx: nat, jy: nat)
    requires k.Valid() && |P| == |k.V| && l <= k.s && jz < k.nz && n <= k.ny && jx < k.nx
    ensures |PlaneVec(k, P, l, jz, n)| == n * k.nx
    ensures jy < n ==> 0 <= jy * k.nx + jx < n * k.nx
                       && PlaneVec(k, P, l, jz, n)[jy * k.nx + jx] == k.At(P, l, jx, jy, jz)
  {
    hide Kernel.At, Dims.Size, RowVec;
    if n > 0 {
      PlaneVecAt(k, P, l, jz, n - 1, jx, jy);
      Times(n - 1, k.nx);
      if jy == n - 1 {
        RowVecAt(k, P, l, jy, jz, k.nx, jx);
      } else if jy < n - 1 {
        Within(jy, jx, k.nx, n);
      }
    }
  }

  lemma {:induction false} BoxVecAt(k: Kernel, P: seq<real>, l: nat, n: nat, jx: nat, jy: nat, jz: nat, w: nat)
    requires k.Valid() && |P| == |k.V| && l <= k.s && n <= k.nz && jx < k.nx && jy < k.ny && w == k.ny * k.nx
    ensures |BoxVec(k, P, l, n)| == n * w
    ensures jz < n ==> 0 <= jz * w + (jy * k.nx + jx) < n * w
                       && BoxVec(k, P, l, n)[jz * w + (jy * k.nx + jx)] == k.At(P, l, jx, jy, jz)
  {
    hide Kernel.At, Dims.Size, PlaneVec;
    if n > 0 {
      BoxVecAt(k, P, l, n - 1, jx, jy, jz, w);
      PlaneVecAt(k, P, l, n - 1, k.ny, jx, jy);
      Times(n - 1, w);
      if jz < n - 1 {
        Within(jz, jy * k.nx + jx, w, n);
      }
    }
  }

  /** The address of a cell in slot l, as the loops write it. */
  function LoopAddress(d: Dims, sx: nat, sm: nat, l: nat, jx: nat, jy: nat, jz: nat): int {
    l * (d.mx * d.my * d.mz) + ((jx + sx) + d.mx * (jy + sm) + d.mx * d.my * (jz + sm))
  }

  /** The unknown of a cell is the value at that address. */
  lemma UnknownAt(k: Kernel, P: seq<real>, l: nat, jx: nat, jy: nat, jz: nat)
    requires k.Valid() && |P| == |k.V| && l <= k.s && jx < k.nx && jy < k.ny && jz < k.nz
    ensures var i, j := Addr(Dims(k.nx, k.ny, k.nz), jx, jy, jz), LoopAddress(k.d, k.sx, k.sm, l, jx, jy, jz);
            && |Unknowns(k, P, l)| == k.nz * (k.ny * k.nx) && 0 <= i < |Unknowns(k, P, l)| && 0 <= j < |P|
            && Unknowns(k, P, l)[i] == P[j]
  {
    CellOfSlot(k, P, l, jx, jy, jz);
    BoxVecAt(k, P, l, k.nz, jx, jy, jz, k.ny * k.nx);
    LoopIndex(k.nx, k.ny, k.nz, jx, jy, jz);
    hide BoxVec, Dims.Size, Kernel.At, LoopAddress, Addr, Kernel.Valid;
  }

  lemma LoopIndex(nx: nat, ny: nat, nz: nat, jx: nat, jy: nat, jz: nat)
    ensures Addr(Dims(nx, ny, nz), jx, jy, jz) == jz * (ny * nx) + (jy * nx + jx)
  {
    SplitRing(jz, jy, ny, nx);
    Commute(ny, nx);
  }

  lemma CellOfSlot(k: Kernel, P: seq<real>, l: nat, jx: nat, jy: nat, jz: nat)
    requires k.Valid() && |P| == |k.V| && l <= k.s && jx < k.nx && jy < k.ny && jz < k.nz
    ensures var j := LoopAddress(k.d, k.sx, k.sm, l, jx, jy, jz); 0 <= j < |P| && k.At(P, l, jx, jy, jz) == P[j]
  {
    var x, y, z := jx + k.sx, jy + k.sm, jz + k.sm;
    Within(l, Addr(k.d, x, y, z), k.d.Size(), k.s + 1);
    SourceAddress(k.d, x, y, z);
    hide Addr;
  }

  lemma SourceAddress(d: Dims, x: int, y: int, z: int)
    ensures Addr(d, x, y, z) == x + d.mx * y + d.mx * d.my * z
  {
    AddrSplits(d, x, y, z);
    Commute(y, d.mx);
    Commute(z, d.mx * d.my);
  }

  function Side(k: Kernel, r: nat): seq<real> {
    if r < k.s then k.Z else k.W
  }

  function SideSlot(k: Kernel, r: nat): nat {
    if r < k.s then r else r - k.s
  }

  lemma {:induction false} RowIsDot(k: Kernel, l: nat, r: nat, jy: nat, jz: nat, n: nat)
    requires k.Valid() && l <= k.s && r <= 2 * k.s && jy < k.ny && jz < k.nz && n <= k.nx
    ensures RowDot(k, l, r, jy, jz, n) ==
            Dot(RowVec(k, k.V, l, jy, jz, n), RowVec(k, Side(k, r), SideSlot(k, r), jy, jz, n))
  {
    hide Kernel.At, Addr, Dims.Size;
    if n > 0 {
      RowIsDot(k, l, r, jy, jz, n - 1);
      var x, y := k.At(k.V, l, n - 1, jy, jz), k.At(Side(k, r), SideSlot(k, r), n - 1, jy, jz);
      DotOfSums(RowVec(k, k.V, l, jy, jz, n - 1), [x], RowVec(k, Side(k, r), SideSlot(k, r), jy, jz, n - 1), [y], 1);
      assert DotTo([x], [y], 1) == DotTo([x], [y], 0) + x * y;
    }
  }

  lemma {:induction false} PlaneIsDot(k: Kernel, l: nat, r: nat, jz: nat, n: nat)
    requires k.Valid() && l <= k.s && r <= 2 * k.s && jz < k.nz && n <= k.ny
    ensures |PlaneVec(k, k.V, l, jz, n)| == |PlaneVec(k, Side(k, r), SideSlot(k, r), jz, n)|
    ensures PlaneDot(k, l, r, jz, n) == Dot(PlaneVec(k, k.V, l, jz, n), PlaneVec(k, Side(k, r), SideSlot(k, r), jz, n))
  {
    hide Kernel.At, Addr, Dims.Size, RowDot, RowVec;
    if n > 0 {
      PlaneIsDot(k, l, r, jz, n - 1);
      RowIsDot(k, l, r, n - 1, jz, k.nx);
      DotOfSums(PlaneVec(k, k.V, l, jz, n - 1), RowVec(k, k.V, l, n - 1, jz, k.nx),
                PlaneVec(k, Side(k, r), SideSlot(k, r), jz, n - 1),
                    RowVec(k, Side(k, r), SideSlot(k, r), n - 1, jz, k.nx), k.nx);
    }
  }

  lemma {:induction false} BoxPrefixIsDot(k: Kernel, l: nat, r: nat, n: nat)
    requires k.Valid() && l <= k.s && r <= 2 * k.s && n <= k.nz
    ensures |BoxVec(k, k.V, l, n)| == |BoxVec(k, Side(k, r), SideSlot(k, r), n)|
    ensures BoxDot(k, l, r, n) == Dot(BoxVec(k, k.V, l, n), BoxVec(k, Side(k, r), SideSlot(k, r), n))
  {
    hide Kernel.At, Addr, Dims.Size, PlaneDot, PlaneVec;
    if n > 0 {
      BoxPrefixIsDot(k, l, r, n - 1);
      PlaneIsDot(k, l, r, n - 1, k.ny);
      var u, v := PlaneVec(k, k.V, l, n - 1, k.ny), PlaneVec(k, Side(k, r), SideSlot(k, r), n - 1, k.ny);
      DotOfSums(BoxVec(k, k.V, l, n - 1), u, BoxVec(k, Side(k, r), SideSlot(k, r), n - 1), v, |u|);
    }
  }

  /** The loops' sum is the inner product of the vectors of unknowns. */
  lemma BoxIsDot(k: Kernel, l: nat, r: nat)
    requires k.Valid() && l <= k.s && r <= 2 * k.s
    ensures |Unknowns(k, k.V, l)| == |Unknowns(k, Side(k, r), SideSlot(k, r))|
    ensures BoxDot(k, l, r, k.nz) == Dot(Unknowns(k, k.V, l), Unknowns(k, Side(k, r), SideSlot(k, r)))
  {
    hide Kernel.At, Addr, Dims.Size;
    BoxPrefixIsDot(k, l, r, k.nz);
  }
}
