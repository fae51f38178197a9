/**
 The promise of `communication` (jupiter/communication.c, 901-971): after it every rank sees, in
 its halo, the cells of the global field that its neighbours own.
 */
module HaloTheorems {
  import opened Layout
  import opened Slab
  import opened Ranks
  import opened Halo
  import opened ExchangeProtocol
  import opened HaloExchange

  /** The global coordinate of local coordinate c on axis k. */
  function GlobalAt(dom: Domain, k: nat, rc: int, c: int): int {
    rc * Get(dom.n, k) + c - dom.stcl
  }

  function Global(dom: Domain, rc: Index, c: Index): Index {
    Index(GlobalAt(dom, 2, rc.x, c.x), GlobalAt(dom, 1, rc.y, c.y), GlobalAt(dom, 0, rc.z, c.z))
  }

  predicate Interior(dom: Domain, k: nat, c: Index) {
    dom.stcl <= Get(c, k) < Get(dom.n, k) + dom.stcl
  }

  predicate AllInterior(dom: Domain, c: Index) {
    Interior(dom, 0, c) && Interior(dom, 1, c) && Interior(dom, 2, c)
  }

  /** A cell of the exchanged region whose global position on axis k lies inside the domain. */
  predicate Visible(dom: Domain, k: nat, rc: Index, c: Index) {
    && 0 <= Get(c, k) < Get(dom.n, k) + 2 * dom.stcl
    && 0 <= GlobalAt(dom, k, Get(rc, k), Get(c, k)) < Extent(dom.grid, k) * Get(dom.n, k)
  }

  /** Every rank's interior holds its part of the global field G. */
  ghost predicate Represents(dom: Domain, F: Fields, G: Index -> real) {
    FieldsOf(dom, F) && dom.Valid() &&
    forall rc: Index, c: Index | InGrid(dom.grid, rc) && dom.d.Has(c.x, c.y, c.z) && AllInterior(dom, c) ::
      Value(dom, F, rc, c) == G(Global(dom, rc, c))
  }

  /** A slab reaches only into interiors: it is no wider than the subdomain, or there is no third rank. */
  predicate Wide(dom: Domain, k: nat) {
    Get(dom.n, k) >= dom.stcl || Extent(dom.grid, k) <= 2
  }

  predicate AllWide(dom: Domain) {
    Wide(dom, 0) && Wide(dom, 1) && Wide(dom, 2)
  }

  lemma SourceIsGlobal(dom: Domain, k: nat, rc: Index, c: Index)
    requires dom.Valid() && k < 3 && Wide(dom, k) && InGrid(dom.grid, rc) && Visible(dom, k, rc, c)
    ensures var (r, v) := Source(dom, k, Get(rc, k), Get(c, k));
            && dom.stcl <= v < Get(dom.n, k) + dom.stcl
            && GlobalAt(dom, k, r, v) == GlobalAt(dom, k, Get(rc, k), Get(c, k))
  {
    var n, p, r, v := Get(dom.n, k), Extent(dom.grid, k), Get(rc, k), Get(c, k);
    RankOffset(n, p, r);
    SourceInRange(n, dom.stcl, p, r, v, r * n, p * n);
  }

  lemma RankOffset(n: nat, p: nat, r: nat)
    requires r < p
    ensures (r - 1) * n == r * n - n && (r + 1) * n == r * n + n
    ensures (r == p - 1 ==> p * n == r * n + n) && (r == p - 2 ==> p * n == r * n + 2 * n)
    ensures (r == 0 ==> r * n == 0) && (r == 1 ==> r * n == n)
  {
  }

  /** rn and pn stand for r * n and p * n. */
  lemma SourceInRange(n: nat, stcl: nat, p: nat, r: nat, v: nat, rn: int, pn: int)
    requires r < p && (n >= stcl || p <= 2)
    requires (r == p - 1 ==> pn == rn + n) && (r == p - 2 ==> pn == rn + 2 * n)
    requires (r == 0 ==> rn == 0) && (r == 1 ==> rn == n)
    requires v < n + 2 * stcl && 0 <= rn + v - stcl < pn
    ensures if v < stcl && r > 0 then stcl <= v + n < n + stcl
            else if n + stcl <= v && r < p - 1 then stcl <= v - n < n + stcl
            else stcl <= v < n + stcl
  {
  }

  /** The halo, edges and corners included, shows the global field. */
  lemma HaloShowsGlobal(dom: Domain, F: Fields, G: Index -> real, rc: Index, c: Index)
    requires Represents(dom, F, G) && HaloSystem(dom).Valid() && AllWide(dom) && InGrid(dom.grid, rc)
    requires Visible(dom, 0, rc, c) && Visible(dom, 1, rc, c) && Visible(dom, 2, rc, c)
    ensures FieldsOf(dom, HaloSystem(dom).After(F, 3)) && dom.d.Has(c.x, c.y, c.z)
    ensures Value(dom, HaloSystem(dom).After(F, 3), rc, c) == G(Global(dom, rc, c))
  {
    hide Value, Addr;
    AfterAt(dom, F, 3, rc, c);
    SourceIsGlobal(dom, 0, rc, c);
    SourceIsGlobal(dom, 1, rc, c);
    SourceIsGlobal(dom, 2, rc, c);
    var (rc', c') := Origin(dom, 3, rc, c);
    OriginCoordinates(dom, rc, c);
    assert Global(dom, rc', c') == Global(dom, rc, c);
    assert AllInterior(dom, c');
  }

  /** The three axes do not interfere. */
  lemma OriginCoordinates(dom: Domain, rc: Index, c: Index)
    ensures var (rc', c') := Origin(dom, 3, rc, c);
            forall k: nat | k < 3 :: (Get(rc', k), Get(c', k)) == Source(dom, k, Get(rc, k), Get(c, k))
  {
    var (r1, c1) := Owner(dom, 2, rc, c);
    var (r2, c2) := Owner(dom, 1, r1, c1);
    var (r3, c3) := Owner(dom, 0, r2, c2);
    assert Origin(dom, 1, r2, c2) == (r3, c3);
    assert Origin(dom, 2, r1, c1) == (r3, c3);
  }

  /** No interior cell of any rank is touched. */
  lemma InteriorUnchanged(dom: Domain, F: Fields, rc: Index, c: Index)
    requires dom.Valid() && HaloSystem(dom).Valid() && FieldsOf(dom, F)
    requires InGrid(dom.grid, rc) && dom.d.Has(c.x, c.y, c.z) && AllInterior(dom, c)
    ensures FieldsOf(dom, HaloSystem(dom).After(F, 3))
    ensures Value(dom, HaloSystem(dom).After(F, 3), rc, c) == Value(dom, F, rc, c)
  {
    AfterAt(dom, F, 3, rc, c);
    OriginCoordinates(dom, rc, c);
    var (rc', c') := Origin(dom, 3, rc, c);
    assert Get(rc', 0) == Get(rc, 0) && Get(rc', 1) == Get(rc, 1) && Get(rc', 2) == Get(rc, 2);
    assert rc' == rc && c' == c;
  }

  /** A second exchange changes no cell of any array, not even those outside the domain. */
  lemma SecondExchangeIsIdle(dom: Domain, F: Fields)
    requires dom.Valid() && HaloSystem(dom).Valid() && FieldsOf(dom, F) && AllWide(dom)
    ensures FieldsOf(dom, HaloSystem(dom).After(F, 3))
    ensures HaloSystem(dom).After(HaloSystem(dom).After(F, 3), 3) == HaloSystem(dom).After(F, 3)
  {
    hide Addr, Packed, Unpacked, Neighbour, Payload, Received;
    AfterFields(dom, F, 3);
    var F1 := HaloSystem(dom).After(F, 3);
    AfterFields(dom, F1, 3);
    var F2 := HaloSystem(dom).After(F1, 3);
    forall r | 0 <= r < |F1|
      ensures F2[r] == F1[r]
    {
      var rc := CellAt(dom.grid, r);
      forall c: Index | dom.d.Has(c.x, c.y, c.z)
        ensures At(F2[r], dom.d, c) == At(F1[r], dom.d, c)
      {
        SameOrigin(dom, F, F1, rc, c);
      }
      FieldsEqual(dom.d, F2[r], F1[r]);
    }
  }

  lemma SameOrigin(dom: Domain, F: Fields, F1: Fields, rc: Index, c: Index)
    requires dom.Valid() && HaloSystem(dom).Valid() && FieldsOf(dom, F) && AllWide(dom)
    requires F1 == HaloSystem(dom).After(F, 3) && InGrid(dom.grid, rc) && dom.d.Has(c.x, c.y, c.z)
    ensures FieldsOf(dom, F1) && FieldsOf(dom, HaloSystem(dom).After(F1, 3))
    ensures Value(dom, HaloSystem(dom).After(F1, 3), rc, c) == Value(dom, F1, rc, c)
  {
    hide Addr, Packed, Unpacked, Neighbour, Payload, Received, Value;
    AfterAt(dom, F, 3, rc, c);
    AfterAt(dom, F1, 3, rc, c);
    var (rc', c') := Origin(dom, 3, rc, c);
    AfterAt(dom, F, 3, rc', c');
    OriginCoordinates(dom, rc, c);
    OriginCoordinates(dom, rc', c');
    SourceTwice(dom, 0, rc, c);
    SourceTwice(dom, 1, rc, c);
    SourceTwice(dom, 2, rc, c);
    var (rc2, c2) := Origin(dom, 3, rc', c');
    assert Get(rc2, 0) == Get(rc', 0) && Get(rc2, 1) == Get(rc', 1) && Get(rc2, 2) == Get(rc', 2);
    assert Get(c2, 0) == Get(c', 0) && Get(c2, 1) == Get(c', 1) && Get(c2, 2) == Get(c', 2);
    assert rc2 == rc' && c2 == c';
  }

  lemma SourceTwice(dom: Domain, k: nat, rc: Index, c: Index)
    requires dom.Valid() && k < 3 && Wide(dom, k) && InGrid(dom.grid, rc) && Get(c, k) >= 0
    ensures var (r, v) := Source(dom, k, Get(rc, k), Get(c, k)); Source(dom, k, r, v) == (r, v)
  {
  }

  /** The exchange as it really runs: any interleaving of the ranks, no synchronisation but the messages. */
  lemma AnyScheduleShowsGlobal(dom: Domain, F: Fields, G: Index -> real, run: seq<World<seq<real>, seq<real>>>,
                               i: nat, rc: Index, c: Index)
    requires Represents(dom, F, G) && AllWide(dom) && InGrid(dom.grid, rc)
    requires IsRun(HaloSystem(dom), F, run) && i < |run| && |run[i].pc| == |run[i].data| == dom.grid.Size()
    requires run[i].pc[RankAt(dom.grid, rc)].Done()
    requires Visible(dom, 0, rc, c) && Visible(dom, 1, rc, c) && Visible(dom, 2, rc, c)
    ensures |run[i].data[RankAt(dom.grid, rc)]| == dom.d.Size() && dom.d.Has(c.x, c.y, c.z)
    ensures At(run[i].data[RankAt(dom.grid, rc)], dom.d, c) == G(Global(dom, rc, c))
  {
    hide Addr, Packed, Unpacked, Neighbour, Payload, Received, At;
    HaloSystemValid(dom);
    AnyOrderIsLockStep(HaloSystem(dom), F, run, i, RankAt(dom.grid, rc));
    HaloShowsGlobal(dom, F, G, rc, c);
  }

  /** Fields that are 0 on every interior and 1 elsewhere. */
  function MarkedHalos(dom: Domain): (F: Fields)
    ensures FieldsOf(dom, F)
  {
    seq(dom.grid.Size(), (r: nat) => Marked(dom))
  }

  function Marked(dom: Domain): (f: seq<real>)
    ensures |f| == dom.d.Size()
  {
    seq(dom.d.Size(), (j: nat) requires j < dom.d.Size() => if AllInterior(dom, CellAt(dom.d, j)) then 0.0 else 1.0)
  }

  lemma MarkedAt(dom: Domain, rc: Index, c: Index)
    requires InGrid(dom.grid, rc) && dom.d.Has(c.x, c.y, c.z)
    ensures Value(dom, MarkedHalos(dom), rc, c) == if AllInterior(dom, c) then 0.0 else 1.0
  {
    StructIndexOfAddr(dom.d, c.x, c.y, c.z);
  }

  /**
   The width condition is exact: with three ranks in a row that are narrower than the halo, a visible
   halo cell shows what its neighbour had in its own halo, not the global field.
   */
  lemma NarrowSubdomainsFail(dom: Domain, k: nat) returns (G: Index -> real, rc: Index, c: Index)
    requires dom.Valid() && k < 3 && !Wide(dom, k) && dom.n.x > 0 && dom.n.y > 0 && dom.n.z > 0 && dom.grid.Size() > 0
    ensures HaloSystem(dom).Valid() && Represents(dom, MarkedHalos(dom), G)
    ensures InGrid(dom.grid, rc) && dom.d.Has(c.x, c.y, c.z)
    ensures Visible(dom, 0, rc, c) && Visible(dom, 1, rc, c) && Visible(dom, 2, rc, c)
    ensures FieldsOf(dom, HaloSystem(dom).After(MarkedHalos(dom), 3))
    ensures Value(dom, HaloSystem(dom).After(MarkedHalos(dom), 3), rc, c) != G(Global(dom, rc, c))
  {
    hide Addr, Packed, Unpacked, Neighbour, Payload, Received, Value, Marked;
    HaloSystemValid(dom);
    G := (g: Index) => 0.0;
    forall rc: Index, c: Index | InGrid(dom.grid, rc) && dom.d.Has(c.x, c.y, c.z) && AllInterior(dom, c)
      ensures Value(dom, MarkedHalos(dom), rc, c) == G(Global(dom, rc, c))
    {
      MarkedAt(dom, rc, c);
    }
    SizePositive(dom.grid);
    rc := Put(Index(0, 0, 0), k, 2);
    c := Put(Index(dom.stcl, dom.stcl, dom.stcl), k, dom.stcl - Get(dom.n, k) - 1);
    AfterAt(dom, MarkedHalos(dom), 3, rc, c);
    OriginCoordinates(dom, rc, c);
    var (rc', c') := Origin(dom, 3, rc, c);
    assert Get(c', k) == dom.stcl - 1;
    MarkedAt(dom, rc', c');
    NarrowVisible(dom, rc, c, k, 0);
    NarrowVisible(dom, rc, c, k, 1);
    NarrowVisible(dom, rc, c, k, 2);
  }

  lemma NarrowVisible(dom: Domain, rc: Index, c: Index, k: nat, j: nat)
    requires dom.Valid() && k < 3 && j < 3 && Extent(dom.grid, k) > 2 && Extent(dom.grid, j) > 0
    requires 0 < Get(dom.n, k) < dom.stcl && 0 < Get(dom.n, j)
    requires rc == Put(Index(0, 0, 0), k, 2)
    requires c == Put(Index(dom.stcl, dom.stcl, dom.stcl), k, dom.stcl - Get(dom.n, k) - 1)
    ensures Visible(dom, j, rc, c)
  {
    var n, p := Get(dom.n, j), Extent(dom.grid, j);
    if j == k {
      assert 3 * n <= p * n by { MulStep(2, p, n); }
    } else {
      assert 1 * n <= p * n by { MulStep(0, p, n); }
    }
  }
}
