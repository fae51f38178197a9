/**
 What the halo exchange computes (jupiter/communication.c, 901-971): the closed form of all
 three phases, corners and edges included, for every rank grid and every speed of the ranks.
 */
module HaloExchange {
  import opened Layout
  import opened Slab
  import opened Ranks
  import opened Halo
  import opened ExchangeProtocol

  function Dir(k: nat, up: bool): nat {
    2 * k + if up then 1 else 0
  }

  /** The exchange of `dom` as a protocol. */
  function HaloSystem(dom: Domain): System<seq<real>, seq<real>>
    requires dom.Valid()
  {
    System(
      dom.grid.Size(),
      (r: int, k: nat, up: bool) => if IsRank(dom.grid, r) && k < 3 then Neighbour(dom.grid, r, Dir(k, up)) else -1,
      (f: seq<real>, k: nat, up: bool) => if |f| == dom.d.Size() && k < 3 then Payload(dom, f, Dir(k, up)) else [],
      (f: seq<real>, k: nat, low: Option<seq<real>>, high: Option<seq<real>>) =>
        if |f| == dom.d.Size() && k < 3 && Sized(dom, k, false, low) && Sized(dom, k, true, high)
        then Received(dom, f, k, low, high) else f)
  }

  predicate Sized(dom: Domain, k: nat, up: bool, m: Option<seq<real>>)
    requires dom.Valid() && k < 3
  {
    m.Some? ==> |m.value| == dom.RecvBox(Dir(k, up)).size.Size()
  }

  lemma HaloSystemValid(dom: Domain)
    requires dom.Valid()
    ensures HaloSystem(dom).Valid()
  {
    var sys := HaloSystem(dom);
    forall r, k: nat, up
      ensures sys.Mutual(r, k, up)
    {
      if sys.Joined(r, k, up) {
        assert Ranks.Opposite(Dir(k, up)) == Dir(k, !up);
        NeighbourBack(dom.grid, r, Dir(k, up));
      }
    }
    forall r, k: nat, up, k': nat, up'
      ensures sys.Single(r, k, up, k', up')
    {
      if sys.Joined(r, k, up) && sys.Joined(r, k', up') && sys.neighbour(r, k, up) == sys.neighbour(r, k', up') {
        OneDirection(dom.grid, r, Dir(k, up), Dir(k', up'));
      }
    }
  }

  /**
   The rank coordinate and the local coordinate along axis k that own cell coordinate c of rank
   coordinate rc: a halo layer next to a neighbour belongs to that neighbour's interior.
   */
  function Source(dom: Domain, k: nat, rc: int, c: int): (int, int) {
    var n := Get(dom.n, k);
    if c < dom.stcl && rc > 0 then (rc - 1, c + n)
    else if n + dom.stcl <= c < n + 2 * dom.stcl && rc < Extent(dom.grid, k) - 1 then (rc + 1, c - n)
    else (rc, c)
  }

  predicate InGrid(grid: Dims, rc: Index) {
    grid.Has(rc.x, rc.y, rc.z)
  }

  function RankAt(grid: Dims, rc: Index): (r: int)
    requires InGrid(grid, rc)
    ensures IsRank(grid, r)
  {
    Addr(grid, rc.x, rc.y, rc.z)
  }

  /** The value of cell c in the field of the rank at rc. */
  ghost function Value(dom: Domain, F: Fields, rc: Index, c: Index): real
    requires FieldsOf(dom, F) && InGrid(dom.grid, rc) && dom.d.Has(c.x, c.y, c.z)
  {
    At(F[RankAt(dom.grid, rc)], dom.d, c)
  }

  /** The cells a message of side (k, up) goes to. */
  predicate InHalo(dom: Domain, k: nat, up: bool, c: Index) {
    if up then Get(dom.n, k) + dom.stcl <= Get(c, k) < Get(dom.n, k) + 2 * dom.stcl else Get(c, k) < dom.stcl
  }

  lemma HaloBox(dom: Domain, k: nat, up: bool, c: Index)
    requires dom.Valid() && k < 3 && dom.d.Has(c.x, c.y, c.z)
    ensures dom.RecvBox(Dir(k, up)).Covers(c) <==> InHalo(dom, k, up, c)
  {
  }

  /** Across the face, counted from the neighbour's side. */
  function Across(dom: Domain, k: nat, up: bool, c: Index): Index {
    Put(c, k, if up then Get(c, k) - Get(dom.n, k) else Get(c, k) + Get(dom.n, k))
  }

  lemma AcrossBoxes(dom: Domain, k: nat, up: bool, c: Index)
    requires dom.Valid() && k < 3
    ensures var to, from := dom.RecvBox(Dir(k, up)), dom.SendBox(Dir(k, !up));
            && to.size == from.size && to.Fits(dom.d) && from.Fits(dom.d)
            && Index(c.x - to.ox + from.ox, c.y - to.oy + from.oy, c.z - to.oz + from.oz) == Across(dom, k, up, c)
  {
  }

  /** One message: the halo layer holds the neighbour's slab, everything else is as before. */
  lemma MessageAt(dom: Domain, f: seq<real>, g: seq<real>, k: nat, up: bool, c: Index, a: Index)
    requires dom.Valid() && k < 3 && |f| == |g| == dom.d.Size() && dom.d.Has(c.x, c.y, c.z)
    requires a == Across(dom, k, up, c)
    ensures InHalo(dom, k, up, c) ==> dom.d.Has(a.x, a.y, a.z)
    ensures At(Unpacked(f, dom.d, dom.RecvBox(Dir(k, up)), Payload(dom, g, Dir(k, !up))), dom.d, c) ==
            if InHalo(dom, k, up, c) then At(g, dom.d, a) else At(f, dom.d, c)
  {
    HaloBox(dom, k, up, c);
    AcrossBoxes(dom, k, up, c);
    MoveBox(g, f, dom.d, dom.SendBox(Dir(k, !up)), dom.RecvBox(Dir(k, up)), c, a);
  }

  lemma MoveBox(f: seq<real>, g: seq<real>, d: Dims, from: Box, to: Box, c: Index, a: Index)
    requires |f| == |g| == d.Size() && from.Fits(d) && to.Fits(d) && from.size == to.size
    requires d.Has(c.x, c.y, c.z) && a == Index(c.x - to.ox + from.ox, c.y - to.oy + from.oy, c.z - to.oz + from.oz)
    ensures to.Covers(c) ==> d.Has(a.x, a.y, a.z)
    ensures At(Unpacked(g, d, to, Packed(f, d, from)), d, c) == if to.Covers(c) then At(f, d, a) else At(g, d, c)
  {
    UnpackPacked(f, g, d, from, to, c);
  }

  /** Both messages of an axis; gl and gh are the fields of the lower and the upper neighbour. */
  lemma ReceivedAt(dom: Domain, f: seq<real>, k: nat, gl: Option<seq<real>>, gh: Option<seq<real>>, c: Index)
    requires dom.Valid() && k < 3 && |f| == dom.d.Size() && dom.d.Has(c.x, c.y, c.z)
    requires gl.Some? ==> |gl.value| == dom.d.Size()
    requires gh.Some? ==> |gh.value| == dom.d.Size()
    ensures InHalo(dom, k, false, c) ==> var a := Across(dom, k, false, c); dom.d.Has(a.x, a.y, a.z)
    ensures InHalo(dom, k, true, c) ==> var a := Across(dom, k, true, c); dom.d.Has(a.x, a.y, a.z)
    ensures At(Received(dom, f, k, Sent(dom, gl, k, true), Sent(dom, gh, k, false)), dom.d, c) ==
            if gh.Some? && InHalo(dom, k, true, c) then At(gh.value, dom.d, Across(dom, k, true, c))
            else if gl.Some? && InHalo(dom, k, false, c) then At(gl.value, dom.d, Across(dom, k, false, c))
            else At(f, dom.d, c)
  {
    hide Addr, Packed, Unpacked;
    var f1 := if gl.Some? then Unpacked(f, dom.d, dom.RecvBox(Dir(k, false)), Sent(dom, gl, k, true).value) else f;
    MessageAt(dom, f, if gl.Some? then gl.value else f, k, false, c, Across(dom, k, false, c));
    MessageAt(dom, f1, if gh.Some? then gh.value else f, k, true, c, Across(dom, k, true, c));
  }

  /** The message a rank with field g (if there is one) sends to side (k, up). */
  function Sent(dom: Domain, g: Option<seq<real>>, k: nat, up: bool): (m: Option<seq<real>>)
    requires dom.Valid() && k < 3 && (g.Some? ==> |g.value| == dom.d.Size())
    ensures m.Some? <==> g.Some?
    ensures Sized(dom, k, !up, m)
  {
    if g.Some? then Some(Payload(dom, g.value, Dir(k, up))) else None
  }

  /** The rank and the cell that own cell c of the rank at rc along axis k. */
  function Owner(dom: Domain, k: nat, rc: Index, c: Index): (Index, Index) {
    var (r, v) := Source(dom, k, Get(rc, k), Get(c, k));
    (Put(rc, k, r), Put(c, k, v))
  }

  lemma NeighbourAt(grid: Dims, rc: Index, k: nat, up: bool)
    requires InGrid(grid, rc) && k < 3
    ensures var v := Get(rc, k) + if up then 1 else -1;
            Neighbour(grid, RankAt(grid, rc), Dir(k, up)) ==
            if 0 <= v < Extent(grid, k) then RankAt(grid, Put(rc, k, v)) else -1
  {
    StructIndexOfAddr(grid, rc.x, rc.y, rc.z);
  }

  /** One axis of the exchange gathers along that axis. */
  lemma AxisAt(dom: Domain, F: Fields, k: nat, rc: Index, c: Index)
    requires dom.Valid() && HaloSystem(dom).Valid() && FieldsOf(dom, F) && k < 3
    requires InGrid(dom.grid, rc) && dom.d.Has(c.x, c.y, c.z)
    ensures var (rc', c') := Owner(dom, k, rc, c);
            InGrid(dom.grid, rc') && dom.d.Has(c'.x, c'.y, c'.z)
    ensures |HaloSystem(dom).Exchanged(F, RankAt(dom.grid, rc), k)| == dom.d.Size()
    ensures var (rc', c') := Owner(dom, k, rc, c);
            At(HaloSystem(dom).Exchanged(F, RankAt(dom.grid, rc), k), dom.d, c) == Value(dom, F, rc', c')
  {
    hide Addr, Packed, Unpacked, Neighbour, Payload, Received, RankAt, At;
    var r := RankAt(dom.grid, rc);
    NeighbourAt(dom.grid, rc, k, false);
    NeighbourAt(dom.grid, rc, k, true);
    var lo, hi := Neighbour(dom.grid, r, Dir(k, false)), Neighbour(dom.grid, r, Dir(k, true));
    var gl := if lo == -1 then None else Some(F[lo]);
    var gh := if hi == -1 then None else Some(F[hi]);
    assert HaloSystem(dom).Exchanged(F, r, k) ==
        Received(dom, F[r], k, Sent(dom, gl, k, true), Sent(dom, gh, k, false));
    ReceivedAt(dom, F[r], k, gl, gh, c);
  }

  lemma {:induction false} AfterFields(dom: Domain, F: Fields, k: nat)
    requires dom.Valid() && HaloSystem(dom).Valid() && FieldsOf(dom, F) && k <= 3
    ensures FieldsOf(dom, HaloSystem(dom).After(F, k))
  {
    if k > 0 {
      hide Addr, Packed, Unpacked, Neighbour, Received, Payload, Dims.Size;
      AfterFields(dom, F, k - 1);
      var sys, G, j := HaloSystem(dom), HaloSystem(dom).After(F, k - 1), k - 1;
      forall r | 0 <= r < |G|
        ensures |sys.Exchanged(G, r, j)| == dom.d.Size()
      {
        ExchangedSize(dom, G, r, j);
      }
    }
  }

  lemma ExchangedSize(dom: Domain, G: Fields, r: int, k: nat)
    requires dom.Valid() && HaloSystem(dom).Valid() && FieldsOf(dom, G) && 0 <= r < |G| && k < 3
    ensures |HaloSystem(dom).Exchanged(G, r, k)| == dom.d.Size()
  {
    hide Addr, Packed, Unpacked, Neighbour, Received, Payload, Dims.Size;
  }

  /** Where the value of cell c of the rank at rc comes from after the first k axes. */
  function Origin(dom: Domain, k: nat, rc: Index, c: Index): (Index, Index)
    requires k <= 3
  {
    if k == 0 then (rc, c)
    else
      var (rc', c') := Owner(dom, k - 1, rc, c);
      Origin(dom, k - 1, rc', c')
  }

  lemma {:induction false} AfterAt(dom: Domain, F: Fields, k: nat, rc: Index, c: Index)
    requires dom.Valid() && HaloSystem(dom).Valid() && FieldsOf(dom, F) && k <= 3
    requires InGrid(dom.grid, rc) && dom.d.Has(c.x, c.y, c.z)
    ensures FieldsOf(dom, HaloSystem(dom).After(F, k))
    ensures var (rc', c') := Origin(dom, k, rc, c); InGrid(dom.grid, rc') && dom.d.Has(c'.x, c'.y, c'.z)
    ensures var (rc', c') := Origin(dom, k, rc, c);
            Value(dom, HaloSystem(dom).After(F, k), rc, c) == Value(dom, F, rc', c')
  {
    AfterFields(dom, F, k);
    if k > 0 {
      hide Addr, Packed, Unpacked, Neighbour, Payload, Received, At, RankAt;
      var sys := HaloSystem(dom);
      var G := sys.After(F, k - 1);
      var (rc', c') := Owner(dom, k - 1, rc, c);
      AfterFields(dom, F, k - 1);
      AxisAt(dom, G, k - 1, rc, c);
      AfterAt(dom, F, k - 1, rc', c');
      assert sys.After(F, k)[RankAt(dom.grid, rc)] == sys.Exchanged(G, RankAt(dom.grid, rc), k - 1);
    }
  }
}
