/**
 bcf = communication, then bcf_wall (jupiter/boundary.c, 195-204): the ghost cells show the global
 field mirrored at the walls of the whole domain, whatever the rank grid.
 */
module BcfTheorems {
  import opened Layout
  import opened Slab
  import opened Ranks
  import opened Halo
  import opened ExchangeProtocol
  import opened HaloExchange
  import opened HaloTheorems
  import opened BcfWall

  /** A decomposition bcf is written for: three halo layers, n + 7 local layers, four cells an axis. */
  ghost predicate ForBcf(dom: Domain) {
    && dom.stcl == 3 && dom.n.x >= 4 && dom.n.y >= 4 && dom.n.z >= 4
    && dom.d == Local(dom.n)
  }

  function NrkOf(grid: Dims, r: int): (nrk: seq<int>)
    requires IsRank(grid, r)
    ensures |nrk| == 6
  {
    [Neighbour(grid, r, 0), Neighbour(grid, r, 1), Neighbour(grid, r, 2),
     Neighbour(grid, r, 3), Neighbour(grid, r, 4), Neighbour(grid, r, 5)]
  }

  /** bcf on all ranks: the exchange in lock step (see AnyOrderIsLockStep), then each rank's walls. */
  ghost function Bcf(dom: Domain, F: Fields, rc: Index): (f: seq<real>)
    requires dom.Valid() && ForBcf(dom) && HaloSystem(dom).Valid() && FieldsOf(dom, F) && InGrid(dom.grid, rc)
    ensures |f| == dom.d.Size()
  {
    AfterFields(dom, F, 3);
    var r := RankAt(dom.grid, rc);
    Walls(HaloSystem(dom).After(F, 3)[r], dom.n, NrkOf(dom.grid, r), 3)
  }

  /** The number of cells of the whole domain along axis k. */
  function Cells(dom: Domain, k: nat): int {
    Extent(dom.grid, k) * Get(dom.n, k)
  }

  function Mirror(g: int, cells: int): int {
    if g < 0 then -1 - g else if g >= cells then 2 * cells - 1 - g else g
  }

  /** The upper layer n + 6 is not exchanged: away from a wall bcf leaves it alone. */
  predicate Exchanged(dom: Domain, k: nat, rc: Index, c: Index) {
    Get(c, k) < Get(dom.n, k) + 6 || Get(rc, k) == Extent(dom.grid, k) - 1
  }

  lemma FoldIsMirror(dom: Domain, k: nat, rc: Index, c: Index)
    requires dom.Valid() && ForBcf(dom) && k < 3 && InGrid(dom.grid, rc) && dom.d.Has(c.x, c.y, c.z)
    requires Exchanged(dom, k, rc, c)
    ensures var v := Fold(dom.n, NrkOf(dom.grid, RankAt(dom.grid, rc)), k, Get(c, k));
            && 0 <= v < Get(dom.n, k) + 2 * dom.stcl
            && GlobalAt(dom, k, Get(rc, k), v) == Mirror(GlobalAt(dom, k, Get(rc, k), Get(c, k)), Cells(dom, k))
            && 0 <= GlobalAt(dom, k, Get(rc, k), v) < Cells(dom, k)
  {
    hide RankAt, Neighbour;
    NeighbourAt(dom.grid, rc, k, false);
    NeighbourAt(dom.grid, rc, k, true);
    var n, p, r := Get(dom.n, k), Extent(dom.grid, k), Get(rc, k);
    RankOffset(n, p, r);
    RankBelow(n, p, r);
  }

  lemma RankBelow(n: nat, p: nat, r: nat)
    requires r < p
    ensures r > 0 ==> r * n >= n
    ensures r < p - 1 ==> r * n + 2 * n <= p * n
    ensures 0 <= r * n && r * n + n <= p * n
  {
    MulStep(r, p, n);
    MulStep(r + 1, p, n);
    MulStep(0, r, n);
  }

  /** Every ghost cell, corners included, shows G at its global position mirrored into the domain. */
  lemma BcfShowsMirror(dom: Domain, F: Fields, G: Index -> real, rc: Index, c: Index)
    requires Represents(dom, F, G) && ForBcf(dom) && HaloSystem(dom).Valid()
    requires InGrid(dom.grid, rc) && dom.d.Has(c.x, c.y, c.z)
    requires Exchanged(dom, 0, rc, c) && Exchanged(dom, 1, rc, c) && Exchanged(dom, 2, rc, c)
    ensures var g := Global(dom, rc, c);
            At(Bcf(dom, F, rc), dom.d, c) ==
            G(Index(Mirror(g.x, Cells(dom, 2)), Mirror(g.y, Cells(dom, 1)), Mirror(g.z, Cells(dom, 0))))
  {
    hide At, Walls, RankAt, Neighbour, NrkOf, Fold, Mirror, Cells;
    AfterFields(dom, F, 3);
    var nrk := NrkOf(dom.grid, RankAt(dom.grid, rc));
    var a := Folded(dom.n, nrk, c);
    WallsAt(HaloSystem(dom).After(F, 3)[RankAt(dom.grid, rc)], dom.n, nrk, c);
    FoldIsMirror(dom, 0, rc, c);
    FoldIsMirror(dom, 1, rc, c);
    FoldIsMirror(dom, 2, rc, c);
    VisibleIf(dom, 0, rc, a);
    VisibleIf(dom, 1, rc, a);
    VisibleIf(dom, 2, rc, a);
    HaloShowsGlobal(dom, F, G, rc, a);
  }

  lemma VisibleIf(dom: Domain, k: nat, rc: Index, a: Index)
    requires 0 <= Get(a, k) < Get(dom.n, k) + 2 * dom.stcl && k < 3
    requires 0 <= GlobalAt(dom, k, Get(rc, k), Get(a, k)) < Cells(dom, k)
    ensures Visible(dom, k, rc, a)
  {
  }

  /** Along one axis h is g, or its reflection in the wall plane in front of cell 0 or behind the last one. */
  predicate Reflects(g: int, h: int, cells: int) {
    0 <= h < cells && (g == h || (g < 0 && (g as real + 0.5) + (h as real + 0.5) == 0.0)
                       || (g >= cells && (g as real + 0.5) + (h as real + 0.5) == 2.0 * cells as real))
  }

  /** So a ghost shows the cell whose centre lies as far from every wall plane, on the other side of it. */
  lemma BcfIsReflection(dom: Domain, F: Fields, G: Index -> real, rc: Index, c: Index, h: Index)
    requires Represents(dom, F, G) && ForBcf(dom) && HaloSystem(dom).Valid()
    requires InGrid(dom.grid, rc) && dom.d.Has(c.x, c.y, c.z)
    requires Exchanged(dom, 0, rc, c) && Exchanged(dom, 1, rc, c) && Exchanged(dom, 2, rc, c)
    requires Reflects(Global(dom, rc, c).x, h.x, Cells(dom, 2)) && Reflects(Global(dom, rc, c).y, h.y, Cells(dom, 1))
    requires Reflects(Global(dom, rc, c).z, h.z, Cells(dom, 0))
    ensures At(Bcf(dom, F, rc), dom.d, c) == G(h)
  {
    hide At, Bcf, Cells, Global, Exchanged;
    BcfShowsMirror(dom, F, G, rc, c);
    ReflectsIsMirror(Global(dom, rc, c).x, h.x, Cells(dom, 2));
    ReflectsIsMirror(Global(dom, rc, c).y, h.y, Cells(dom, 1));
    ReflectsIsMirror(Global(dom, rc, c).z, h.z, Cells(dom, 0));
  }

  lemma ReflectsIsMirror(g: int, h: int, cells: int)
    requires Reflects(g, h, cells)
    ensures h == Mirror(g, cells)
  {
  }

  /** Any two decompositions of one global field give the same value to the same global position. */
  lemma DecompositionDoesNotMatter(dom: Domain, F: Fields, rc: Index, c: Index,
                                   dom': Domain, F': Fields, rc': Index, c': Index, G: Index -> real)
    requires Represents(dom, F, G) && ForBcf(dom) && HaloSystem(dom).Valid()
    requires Represents(dom', F', G) && ForBcf(dom') && HaloSystem(dom').Valid()
    requires forall k: nat | k < 3 :: Cells(dom, k) == Cells(dom', k)
    requires InGrid(dom.grid, rc) && dom.d.Has(c.x, c.y, c.z)
    requires InGrid(dom'.grid, rc') && dom'.d.Has(c'.x, c'.y, c'.z)
    requires Exchanged(dom, 0, rc, c) && Exchanged(dom, 1, rc, c) && Exchanged(dom, 2, rc, c)
    requires Exchanged(dom', 0, rc', c') && Exchanged(dom', 1, rc', c') && Exchanged(dom', 2, rc', c')
    requires Global(dom, rc, c) == Global(dom', rc', c')
    ensures At(Bcf(dom, F, rc), dom.d, c) == At(Bcf(dom', F', rc'), dom'.d, c')
  {
    hide At, Bcf, Mirror, Cells, Global, Exchanged;
    BcfShowsMirror(dom, F, G, rc, c);
    BcfShowsMirror(dom', F', G, rc', c');
  }
}
