/**
 What the ghosts of a frame hold after all six sides have been filled (jupiter/boundary.c, 30-64,
 535-670 and 2169-2377): every ghost of every layer stands in the relation of its boundary condition to
 the cell that lies as far in front of the wall as the ghost lies behind it.
 */
module GhostLaws {
  import opened Layout
  import opened Slab
  import opened Ranks
  import opened Frames
  import opened Ghosts

  /** The relation between a ghost and the cells in front of it; the ghost lies depth cells behind the edge cell. */
  predicate Obeys(rule: Rule, behind: real, inside: real, edge: real, inner: real, depth: int) {
    match rule
    case Mirrored => behind == inside
    case Reflected(value) => (behind + inside) / 2.0 == value
    case Extrapolated(limit) =>
      var line := (behind - edge) == depth as real * (edge - inner);
      behind >= limit && (line || (behind == limit && behind - edge > depth as real * (edge - inner)))
  }

  lemma ValueObeys(rule: Rule, inside: real, edge: real, inner: real, l: nat)
    ensures Obeys(rule, GhostValue(rule, inside, edge, inner, l), inside, edge, inner, l + 1)
  {
  }

  /** c is a ghost behind the wall in direction dir: the lower stm layers, or the first stp - 1 of the upper ones. */
  predicate Behind(g: Frame, dir: nat, c: Index)
    requires g.Sized() && dir < 6
  {
    var k := dir / 2;
    && (if dir % 2 == 0 then 0 <= Get(c, k) < g.stm
        else Get(g.n, k) + g.stm <= Get(c, k) < Get(g.n, k) + g.stm + g.stp - 1)
    && g.IsCell(Put(c, k, g.stm))
  }

  lemma BehindIsSide(g: Frame, dir: nat, c: Index)
    requires g.Sized() && dir < 6
    ensures Behind(g, dir, c) <==> OnSide(g, dir, c)
  {
  }

  /** a lies as far in front of the wall in direction dir as c lies behind it. */
  predicate Opposite(g: Frame, dir: nat, c: Index, a: Index)
    requires g.Sized() && dir < 6
  {
    var k := dir / 2;
    a == Put(c, k, Get(a, k)) && Get(a, k) + Get(c, k) == 2 * (if dir % 2 == 0 then g.stm else Get(g.n, k) + g.stm) - 1
  }

  /** The cell at the wall, and the number of cells from it to c. */
  predicate EdgeOf(g: Frame, dir: nat, c: Index, e: Index, depth: int)
    requires g.Sized() && dir < 6
  {
    && g.IsCell(e) && e == Put(c, dir / 2, Get(e, dir / 2))
    && Get(e, dir / 2) == (if dir % 2 == 0 then g.stm else Get(g.n, dir / 2) + g.stm - 1)
    && depth == (if dir % 2 == 0 then Get(e, dir / 2) - Get(c, dir / 2) else Get(c, dir / 2) - Get(e, dir / 2))
  }

  /** The cell next to the cell e at the wall, one further away from the wall. */
  function InFront(dir: nat, e: Index): Index {
    if dir % 2 == 0 then Next(e, dir / 2) else Prev(e, dir / 2)
  }

  lemma SideParts(g: Frame, dir: nat, c: Index, a: Index, e: Index, depth: int)
    requires Reaches(g) && dir < 6 && Behind(g, dir, c) && Opposite(g, dir, c, a) && EdgeOf(g, dir, c, e, depth)
    ensures OnSide(g, dir, c) && a == Inside(g, dir, c) && e == Edge(g, dir, c)
    ensures InFront(dir, e) == Inner(g, dir, c) && depth == Layer(g, dir, c) + 1
  {
  }

  /** A ghost belongs to one side only. */
  lemma OneSide(g: Frame, dir: nat, dir': nat, c: Index)
    requires g.Sized() && dir < 6 && dir' < 6 && OnSide(g, dir, c) && OnSide(g, dir', c)
    ensures dir == dir'
  {
  }

  /** A ghost whose partners are cells gets its value from them, whichever of the other sides are walls. */
  lemma {:induction false} GhostIs(g: Frame, rules: (nat, Index) -> Rule, f: seq<real>, m: nat, dir: nat, c: Index)
    requires Reaches(g) && dir < m <= 6 && |f| == g.Dim().Size() && OnSide(g, dir, c) && g.nrk[dir] == -1
    requires g.IsCell(Inside(g, dir, c))
    requires rules(dir, Edge(g, dir, c)).Extrapolated? ==> g.IsCell(Inner(g, dir, c))
    ensures g.Dim().Has(c.x, c.y, c.z)
    ensures At(FilledSides(g, rules, f, m), g.Dim(), c) == SideValue(g, dir, rules, f, c)
  {
    hide At, Ghosts.Filled, SideValue, GhostValue, OnSide, Inner, Inside, Edge, FilledSides;
    var h := FilledSides(g, rules, f, m - 1);
    SideCells(g, dir, c);
    LastSide(g, rules, f, m);
    FilledAt(g, m - 1, rules, h, c);
    if m - 1 == dir {
      SameSideValue(g, dir, rules, f, h, c, m - 1);
    } else {
      GhostIs(g, rules, f, m - 1, dir, c);
      if OnSide(g, m - 1, c) {
        OneSide(g, dir, m - 1, c);
      }
    }
  }

  lemma LastSide(g: Frame, rules: (nat, Index) -> Rule, f: seq<real>, m: nat)
    requires Reaches(g) && 0 < m <= 6 && |f| == g.Dim().Size()
    ensures FilledSides(g, rules, f, m) ==
            var h := FilledSides(g, rules, f, m - 1);
            if g.nrk[m - 1] == -1 then Ghosts.Filled(g, m - 1, rules, h) else h
  {
    hide Ghosts.Filled, OnSide;
  }

  lemma SameSideValue(g: Frame, dir: nat, rules: (nat, Index) -> Rule, f: seq<real>, h: seq<real>, c: Index, m: nat)
    requires Reaches(g) && dir < 6 && m <= 6 && |f| == g.Dim().Size() && OnSide(g, dir, c)
    requires g.IsCell(Inside(g, dir, c)) && h == FilledSides(g, rules, f, m)
    requires rules(dir, Edge(g, dir, c)).Extrapolated? ==> g.IsCell(Inner(g, dir, c))
    ensures SideValue(g, dir, rules, h, c) == SideValue(g, dir, rules, f, c)
  {
    hide At, FilledSides, GhostValue, Inner, Inside;
    SideCells(g, dir, c);
    CellsKept(g, rules, f, m, Inside(g, dir, c));
    CellsKept(g, rules, f, m, Edge(g, dir, c));
    if rules(dir, Edge(g, dir, c)).Extrapolated? {
      CellsKept(g, rules, f, m, Inner(g, dir, c));
    } else {
      InnerIgnored(rules(dir, Edge(g, dir, c)), At(f, g.Dim(), Inside(g, dir, c)), At(f, g.Dim(), Edge(g, dir, c)),
                   At(h, g.Dim(), Inner(g, dir, c)), At(f, g.Dim(), Inner(g, dir, c)), Layer(g, dir, c));
    }
  }

  lemma InnerIgnored(rule: Rule, inside: real, edge: real, inner: real, inner': real, l: nat)
    requires !rule.Extrapolated?
    ensures GhostValue(rule, inside, edge, inner, l) == GhostValue(rule, inside, edge, inner', l)
  {
  }

  /**
   After the fill every ghost, in every layer whose partner is a cell, obeys the condition of the wall it
   lies behind.
   */
  lemma GhostsObey(g: Frame, rules: (nat, Index) -> Rule, f: seq<real>, dir: nat, c: Index, a: Index, e: Index,
                   depth: int)
    requires Reaches(g) && dir < 6 && |f| == g.Dim().Size() && g.nrk[dir] == -1
    requires Behind(g, dir, c) && Opposite(g, dir, c, a) && EdgeOf(g, dir, c, e, depth)
    requires g.IsCell(a) && (rules(dir, e).Extrapolated? ==> g.IsCell(InFront(dir, e)))
    ensures var i := InFront(dir, e);
            && g.Dim().Has(c.x, c.y, c.z) && g.Dim().Has(a.x, a.y, a.z) && g.Dim().Has(e.x, e.y, e.z)
            && g.Dim().Has(i.x, i.y, i.z)
            && Obeys(rules(dir, e), At(FilledSides(g, rules, f, 6), g.Dim(), c), At(f, g.Dim(), a), At(f, g.Dim(), e),
                     At(f, g.Dim(), i), depth)
  {
    SideParts(g, dir, c, a, e, depth);
    GhostIs(g, rules, f, 6, dir, c);
    SideCells(g, dir, c);
    hide At, FilledSides, GhostValue, Obeys, OnSide, Inner, Inside, Edge, Behind, Opposite, EdgeOf;
    ValueObeys(rules(dir, e), At(f, g.Dim(), a), At(f, g.Dim(), e), At(f, g.Dim(), InFront(dir, e)), Layer(g, dir, c));
  }
}
