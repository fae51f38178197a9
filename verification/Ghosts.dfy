/**
 Ghost cells at the physical walls of a frame (jupiter/boundary.c: boundary_point_symmetry and
 boundary_line_symmetry 30-64, bcp_calc and BCP 535-670, bct_diffusion, bct_calc and
 bct_Ins_Iso_Diff 2169-2377).  The pressure and temperature fills run the same loops and differ in
 the rule that a boundary condition stands for.
 */
module Ghosts {
  import opened Layout
  import opened Slab
  import opened Ranks
  import opened Frames

  /** How the ghosts behind a boundary cell follow from the cells in front of it. */
  datatype Rule = Mirrored | Reflected(value: real) | Extrapolated(limit: real)

  function Max(a: real, b: real): real { if a > b then a else b }

  /**
   The ghost in layer l: `inside` is the cell as far in front of the wall as the ghost is behind it,
   `edge` the cell at the wall and `inner` the next one.
   */
  function GhostValue(rule: Rule, inside: real, edge: real, inner: real, l: nat): real {
    match rule
    case Mirrored => inside
    case Reflected(value) => 2.0 * value - inside
    case Extrapolated(limit) => Max(edge + (l + 1) as real * (edge - inner), limit)
  }

  function Out(base: int, offset: int, l: nat): int { base + (l + 1) * offset }

  function In(base: int, offset: int, l: nat): int { base - l * offset }

  /** The cells l steps outside and inside, and the one next to the wall cell, lie in the array. */
  predicate LineFits(len: int, base: int, offset: int, size: nat) {
    && offset != 0 && 0 <= base < len && 0 <= base - offset < len
    && forall l: nat {:trigger Out(base, offset, l)} {:trigger In(base, offset, l)} | l < size ::
         0 <= Out(base, offset, l) < len && 0 <= In(base, offset, l) < len
  }

  lemma OutNotIn(base: int, offset: int, l: nat, l': nat)
    requires offset != 0
    ensures Out(base, offset, l) != In(base, offset, l')
    ensures Out(base, offset, l) == Out(base, offset, l') ==> l == l'
    ensures Out(base, offset, l) != base && Out(base, offset, l) != base - offset
  {
    assert Out(base, offset, l) - In(base, offset, l') == (l + 1 + l') * offset;
    assert Out(base, offset, l) - Out(base, offset, l') == (l - l') * offset;
    assert Out(base, offset, l) - base == (l + 1) * offset;
    assert Out(base, offset, l) - (base - offset) == (l + 2) * offset;
  }

  ghost function LineValue(rule: Rule, f0: seq<real>, base: int, offset: int, size: nat, l: nat): real
    requires LineFits(|f0|, base, offset, size) && l < size
  {
    GhostValue(rule, f0[In(base, offset, l)], f0[base], f0[base - offset], l)
  }

  /** The ghosts before layer l are filled and nothing else has changed. */
  ghost predicate LineDone(f: seq<real>, f0: seq<real>, base: int, offset: int, size: nat, l: nat, rule: Rule)
    requires |f| == |f0| && LineFits(|f|, base, offset, size) && l <= size
  {
    && (forall i: nat | i < l :: f[Out(base, offset, i)] == LineValue(rule, f0, base, offset, size, i))
    && (forall a | 0 <= a < |f| && (forall i: nat | i < l :: a != Out(base, offset, i)) :: f[a] == f0[a])
  }

  lemma LineStep(f: seq<real>, f0: seq<real>, base: int, offset: int, size: nat, l: nat, rule: Rule)
    requires |f| == |f0| && LineFits(|f|, base, offset, size) && l < size
    requires LineDone(f, f0, base, offset, size, l, rule)
    ensures f[In(base, offset, l)] == f0[In(base, offset, l)] && f[base] == f0[base]
    ensures f[base - offset] == f0[base - offset]
    ensures LineDone(f[Out(base, offset, l) := LineValue(rule, f0, base, offset, size, l)], f0, base, offset, size,
            l + 1, rule)
  {
    hide Out, In, LineValue;
    forall i: nat | i < size
      ensures Out(base, offset, i) != In(base, offset, l) && Out(base, offset, i) != base
      ensures Out(base, offset, i) != base - offset
      ensures Out(base, offset, i) == Out(base, offset, l) ==> i == l
    {
      OutNotIn(base, offset, i, l);
      OutNotIn(base, offset, l, i);
    }
  }

  lemma LineStart(f: seq<real>, base: int, offset: int, size: nat, rule: Rule)
    requires LineFits(|f|, base, offset, size)
    ensures LineDone(f, f, base, offset, size, 0, rule)
  {
  }

  method BoundaryPointSymmetry(f: array<real>, base: int, offset: int, size: nat, symmetryVal: real)
    requires LineFits(f.Length, base, offset, size)
    modifies f
    ensures LineDone(f[..], old(f[..]), base, offset, size, size, Reflected(symmetryVal))
  {
    hide Out, In, LineDone;
    LineStart(f[..], base, offset, size, Reflected(symmetryVal));
    var twice := symmetryVal * 2.0;
    for j := 0 to size
      invariant LineDone(f[..], old(f[..]), base, offset, size, j, Reflected(symmetryVal))
    {
      LineStep(f[..], old(f[..]), base, offset, size, j, Reflected(symmetryVal));
      f[Out(base, offset, j)] := twice - f[In(base, offset, j)];
    }
  }

  method BoundaryLineSymmetry(f: array<real>, base: int, offset: int, size: nat)
    requires LineFits(f.Length, base, offset, size)
    modifies f
    ensures LineDone(f[..], old(f[..]), base, offset, size, size, Mirrored)
  {
    hide Out, In, LineDone;
    LineStart(f[..], base, offset, size, Mirrored);
    for j := 1 to size + 1
      invariant LineDone(f[..], old(f[..]), base, offset, size, j - 1, Mirrored)
    {
      LineStep(f[..], old(f[..]), base, offset, size, j - 1, Mirrored);
      f[Out(base, offset, j - 1)] := f[In(base, offset, j - 1)];
    }
  }

  lemma ExtrapolatedValue(f: seq<real>, base: int, offset: int, size: nat, l: nat, limit: real, d: real, j: real,
                          t: real)
    requires LineFits(|f|, base, offset, size) && l < size
    requires d == f[base] - f[base - offset] && j == (l + 1) as real && t == f[base] + j * d
    ensures LineValue(Extrapolated(limit), f, base, offset, size, l) == Max(t, limit)
  {
  }

  /** bct_diffusion. */
  method BctDiffusion(f: array<real>, base: int, offset: int, size: nat, limit: real)
    requires LineFits(f.Length, base, offset, size)
    modifies f
    ensures LineDone(f[..], old(f[..]), base, offset, size, size, Extrapolated(limit))
  {
    hide Out, In, LineDone, LineValue;
    LineStart(f[..], base, offset, size, Extrapolated(limit));
    ghost var f0 := f[..];
    var d := f[base] - f[base - offset];
    for j := 1 to size + 1
      invariant LineDone(f[..], f0, base, offset, size, j - 1, Extrapolated(limit))
    {
      LineStep(f[..], f0, base, offset, size, j - 1, Extrapolated(limit));
      var t := f[base] + j as real * d;
      ExtrapolatedValue(f0, base, offset, size, j - 1, limit, d, j as real, t);
      f[Out(base, offset, j - 1)] := Max(t, limit);
    }
  }

  /** The dispatch of bcp_calc and bct_calc. */
  method FillLine(f: array<real>, rule: Rule, base: int, offset: int, size: nat)
    requires LineFits(f.Length, base, offset, size)
    modifies f
    ensures LineDone(f[..], old(f[..]), base, offset, size, size, rule)
  {
    match rule {
      case Mirrored => BoundaryLineSymmetry(f, base, offset, size);
      case Reflected(value) => BoundaryPointSymmetry(f, base, offset, size, value);
      case Extrapolated(limit) => BctDiffusion(f, base, offset, size, limit);
    }
  }

  predicate Upper(dir: nat) { dir % 2 == 1 }

  /** The number of ghost layers filled in direction dir. */
  function Layers(g: Frame, dir: nat): nat
    requires g.Sized()
  {
    if Upper(dir) then g.stp - 1 else g.stm
  }

  /** How far c lies outside the domain in direction dir, counted from 0. */
  function Layer(g: Frame, dir: nat, c: Index): int
    requires dir < 6
  {
    if Upper(dir) then Get(c, dir / 2) - Get(g.n, dir / 2) - g.stm else g.stm - 1 - Get(c, dir / 2)
  }

  /** The boundary cell behind which ghost c lies. */
  function Edge(g: Frame, dir: nat, c: Index): Index
    requires dir < 6
  {
    Put(c, dir / 2, if Upper(dir) then Get(g.n, dir / 2) + g.stm - 1 else g.stm)
  }

  /** c is a ghost of direction dir: outside on that axis, inside on the two others. */
  predicate OnSide(g: Frame, dir: nat, c: Index)
    requires g.Sized() && dir < 6
  {
    0 <= Layer(g, dir, c) < Layers(g, dir) && g.IsCell(Edge(g, dir, c))
  }

  /** The cell as far in front of the wall as c is behind it, and the cell next to the boundary cell. */
  function Inside(g: Frame, dir: nat, c: Index): Index
    requires dir < 6
  {
    Put(c, dir / 2, if Upper(dir) then 2 * (Get(g.n, dir / 2) + g.stm) - 1 - Get(c, dir / 2)
        else 2 * g.stm - 1 - Get(c, dir / 2))
  }

  function Inner(g: Frame, dir: nat, c: Index): Index
    requires dir < 6
  {
    Across(Edge(g, dir, c), if Upper(dir) then dir - 1 else dir + 1)
  }

  /** The ghost layers are not deeper than the cells in front of them reach into the array. */
  predicate Reaches(g: Frame) {
    g.Sized() && forall k: nat | k < 3 :: g.stm <= Get(g.n, k) + g.stp && g.stp <= Get(g.n, k) + g.stm + 1
  }

  lemma SideCells(g: Frame, dir: nat, c: Index)
    requires Reaches(g) && dir < 6 && OnSide(g, dir, c)
    ensures g.Dim().Has(c.x, c.y, c.z)
    ensures var e := Edge(g, dir, c); g.Dim().Has(e.x, e.y, e.z)
    ensures var e := Inside(g, dir, c); g.Dim().Has(e.x, e.y, e.z)
    ensures var e := Inner(g, dir, c); g.Dim().Has(e.x, e.y, e.z)
  {
    assert g.stm <= Get(g.n, dir / 2) + g.stp && g.stp <= Get(g.n, dir / 2) + g.stm + 1;
    assert Inner(g, dir, c) == Across(Edge(g, dir, c), if Upper(dir) then dir - 1 else dir + 1);
    InnerInArray(g, dir, Edge(g, dir, c));
    hide Inner;
  }

  lemma InnerInArray(g: Frame, dir: nat, e: Index)
    requires g.Sized() && dir < 6 && g.IsCell(e)
    ensures var i := Across(e, if Upper(dir) then dir - 1 else dir + 1); g.Dim().Has(i.x, i.y, i.z)
  {
  }

  /** The value the fill of direction dir gives to ghost c. */
  function SideValue(g: Frame, dir: nat, rules: (nat, Index) -> Rule, f: seq<real>, c: Index): real
    requires Reaches(g) && dir < 6 && |f| == g.Dim().Size() && OnSide(g, dir, c)
  {
    SideCells(g, dir, c);
    GhostValue(rules(dir, Edge(g, dir, c)), At(f, g.Dim(), Inside(g, dir, c)), At(f, g.Dim(), Edge(g, dir, c)),
               At(f, g.Dim(), Inner(g, dir, c)), Layer(g, dir, c))
  }

  /** The field after the side of direction dir has been filled. */
  function Filled(g: Frame, dir: nat, rules: (nat, Index) -> Rule, f: seq<real>): (r: seq<real>)
    requires Reaches(g) && dir < 6 && |f| == g.Dim().Size()
    ensures |r| == |f|
  {
    seq(|f|, (j: nat) requires j < |f| =>
      var c := CellAt(g.Dim(), j);
      if OnSide(g, dir, c) then SideValue(g, dir, rules, f, c) else f[j])
  }

  lemma FilledAt(g: Frame, dir: nat, rules: (nat, Index) -> Rule, f: seq<real>, c: Index)
    requires Reaches(g) && dir < 6 && |f| == g.Dim().Size() && g.Dim().Has(c.x, c.y, c.z)
    ensures At(Filled(g, dir, rules, f), g.Dim(), c) ==
            if OnSide(g, dir, c) then SideValue(g, dir, rules, f, c) else At(f, g.Dim(), c)
  {
    hide OnSide, SideValue;
    StructIndexOfAddr(g.Dim(), c.x, c.y, c.z);
  }

  /** The signed distance in memory from a boundary cell to its first ghost. */
  function Outward(g: Frame, dir: nat): int
    requires g.Sized() && dir < 6
  {
    if Upper(dir) then Stride(g.Dim(), dir / 2) else -(Stride(g.Dim(), dir / 2) as int)
  }

  function Address(g: Frame, c: Index): int
    requires g.Sized()
  {
    Addr(g.Dim(), c.x, c.y, c.z)
  }

  /** The ghost in layer l behind boundary cell e. */
  function GhostAt(g: Frame, dir: nat, e: Index, l: int): Index
    requires dir < 6
  {
    Put(e, dir / 2, if Upper(dir) then Get(e, dir / 2) + l + 1 else Get(e, dir / 2) - l - 1)
  }

  lemma LineAddresses(g: Frame, dir: nat, e: Index, l: nat)
    requires g.Sized() && dir < 6
    ensures Out(Address(g, e), Outward(g, dir), l) == Address(g, GhostAt(g, dir, e, l))
    ensures In(Address(g, e), Outward(g, dir), l) == Address(g, GhostAt(g, dir, e, -1 - l))
  {
    hide Addr;
    var k, d := dir / 2, g.Dim();
    if Upper(dir) {
      PutSteps(d, e, k, l + 1);
      PutSteps(d, e, k, 0 - l);
      Against(l, Stride(d, k));
    } else {
      PutSteps(d, e, k, -1 - l);
      PutSteps(d, e, k, l);
      Against(l + 1, Stride(d, k));
      Against(l, Stride(d, k));
    }
  }

  lemma Against(n: int, s: int)
    ensures n * (-s) == (-n) * s == -(n * s)
  {
  }

  lemma GhostOnSide(g: Frame, dir: nat, e: Index, l: nat)
    requires Reaches(g) && dir < 6 && l < Layers(g, dir) && g.IsCell(e) && e == Edge(g, dir, e)
    ensures var c := GhostAt(g, dir, e, l);
            && OnSide(g, dir, c) && Edge(g, dir, c) == e && Layer(g, dir, c) == l
            && Inside(g, dir, c) == GhostAt(g, dir, e, -1 - l) && Inner(g, dir, c) == GhostAt(g, dir, e, -2)
  {
  }

  lemma SideIsGhost(g: Frame, dir: nat, e: Index, c: Index)
    requires g.Sized() && dir < 6 && OnSide(g, dir, c) && Edge(g, dir, c) == e
    ensures 0 <= Layer(g, dir, c) < Layers(g, dir) && c == GhostAt(g, dir, e, Layer(g, dir, c))
  {
  }

  lemma SideLineFits(g: Frame, dir: nat, e: Index)
    requires Reaches(g) && dir < 6 && g.IsCell(e) && e == Edge(g, dir, e)
    ensures LineFits(g.Dim().Size(), Address(g, e), Outward(g, dir), Layers(g, dir))
  {
    hide Addr, Out, In, Dims.Size, OnSide;
    assert Stride(g.Dim(), dir / 2) > 0 by { StridePositive(g, dir / 2); }
    LineAddresses(g, dir, e, 1);
    InnerCell(g, dir, e);
    forall l: nat | l < Layers(g, dir)
      ensures 0 <= Out(Address(g, e), Outward(g, dir), l) < g.Dim().Size()
      ensures 0 <= In(Address(g, e), Outward(g, dir), l) < g.Dim().Size()
    {
      GhostOnSide(g, dir, e, l);
      SideCells(g, dir, GhostAt(g, dir, e, l));
      LineAddresses(g, dir, e, l);
    }
  }

  lemma StridePositive(g: Frame, k: nat)
    requires g.Sized() && k < 3
    ensures Stride(g.Dim(), k) > 0
  {
    assert g.Dim().mx > 0 && g.Dim().my > 0;
  }

  lemma InnerCell(g: Frame, dir: nat, e: Index)
    requires g.Sized() && dir < 6 && g.IsCell(e) && e == Edge(g, dir, e)
    ensures g.Dim().Has(e.x, e.y, e.z)
    ensures var i := GhostAt(g, dir, e, -2); g.Dim().Has(i.x, i.y, i.z)
    ensures In(Address(g, e), Outward(g, dir), 1) == Address(g, e) - Outward(g, dir)
  {
  }

  /** The columns of side dir visited before (a, b) are filled. */
  ghost predicate SideProgress(g: Frame, dir: nat, rules: (nat, Index) -> Rule, f: seq<real>, f0: seq<real>, a: int,
                               b: int)
    requires Reaches(g) && dir < 6 && |f| == |f0| == g.Dim().Size()
  {
    forall c: Index | g.Dim().Has(c.x, c.y, c.z) ::
      At(f, g.Dim(), c) == At(if Visited(g, dir, c, a, b) then Filled(g, dir, rules, f0) else f0, g.Dim(), c)
  }

  predicate Visited(g: Frame, dir: nat, c: Index, a: int, b: int)
    requires g.Sized() && dir < 6
  {
    OnSide(g, dir, c) && Before(PlaneA(dir / 2, c) - g.stm, PlaneB(dir / 2, c) - g.stm, 0, a, b, 0)
  }

  /** Filling the column behind boundary cell e. */
  lemma ColumnStep(g: Frame, dir: nat, rules: (nat, Index) -> Rule, f: seq<real>, f': seq<real>, f0: seq<real>, a: int,
                   b: int, e: Index)
    requires Reaches(g) && dir < 6 && |f| == |f'| == |f0| == g.Dim().Size() && SideProgress(g, dir, rules, f, f0, a, b)
    requires g.IsCell(e) && e == Edge(g, dir, e) && PlaneA(dir / 2, e) == a + g.stm && PlaneB(dir / 2, e) == b + g.stm
    requires LineFits(|f|, Address(g, e), Outward(g, dir), Layers(g, dir))
    requires LineDone(f', f, Address(g, e), Outward(g, dir), Layers(g, dir), Layers(g, dir), rules(dir, e))
    ensures SideProgress(g, dir, rules, f', f0, a + 1, b)
  {
    forall c: Index | g.Dim().Has(c.x, c.y, c.z)
      ensures At(f', g.Dim(), c) ==
              At(if Visited(g, dir, c, a + 1, b) then Filled(g, dir, rules, f0) else f0, g.Dim(), c)
    {
      if OnSide(g, dir, c) && Edge(g, dir, c) == e {
        InColumn(g, dir, rules, f, f', f0, a, b, e, c);
      } else {
        OffColumn(g, dir, rules, f, f', f0, a, b, e, c);
      }
    }
  }

  lemma InColumn(g: Frame, dir: nat, rules: (nat, Index) -> Rule, f: seq<real>, f': seq<real>, f0: seq<real>, a: int,
                 b: int, e: Index, c: Index)
    requires Reaches(g) && dir < 6 && |f| == |f'| == |f0| == g.Dim().Size() && SideProgress(g, dir, rules, f, f0, a, b)
    requires g.IsCell(e) && e == Edge(g, dir, e) && PlaneA(dir / 2, e) == a + g.stm && PlaneB(dir / 2, e) == b + g.stm
    requires LineFits(|f|, Address(g, e), Outward(g, dir), Layers(g, dir))
    requires LineDone(f', f, Address(g, e), Outward(g, dir), Layers(g, dir), Layers(g, dir), rules(dir, e))
    requires OnSide(g, dir, c) && Edge(g, dir, c) == e && g.Dim().Has(c.x, c.y, c.z)
    ensures Visited(g, dir, c, a + 1, b) && At(f', g.Dim(), c) == At(Filled(g, dir, rules, f0), g.Dim(), c)
  {
    hide Addr, Out, In, Filled, LineDone, SideProgress, At;
    GhostOnSide(g, dir, e, Layer(g, dir, c));
    FilledAt(g, dir, rules, f0, c);
    SideCells(g, dir, c);
    Untouched(g, dir, rules, f, f0, a, b, Inside(g, dir, c));
    Untouched(g, dir, rules, f, f0, a, b, e);
    Untouched(g, dir, rules, f, f0, a, b, Inner(g, dir, c));
    ColumnValue(g, dir, f, f', rules(dir, e), e, c);
  }

  /** What the filled line means for the cells it runs through. */
  lemma ColumnValue(g: Frame, dir: nat, f: seq<real>, f': seq<real>, rule: Rule, e: Index, c: Index)
    requires g.Sized() && Reaches(g) && dir < 6 && |f| == |f'| == g.Dim().Size()
    requires g.IsCell(e) && e == Edge(g, dir, e) && OnSide(g, dir, c) && Edge(g, dir, c) == e
    requires LineFits(|f|, Address(g, e), Outward(g, dir), Layers(g, dir))
    requires LineDone(f', f, Address(g, e), Outward(g, dir), Layers(g, dir), Layers(g, dir), rule)
    ensures g.Dim().Has(c.x, c.y, c.z) && g.Dim().Has(e.x, e.y, e.z)
    ensures var i := Inside(g, dir, c); g.Dim().Has(i.x, i.y, i.z)
    ensures var i := Inner(g, dir, c); g.Dim().Has(i.x, i.y, i.z)
    ensures At(f', g.Dim(), c) ==
            GhostValue(rule, At(f, g.Dim(), Inside(g, dir, c)), At(f, g.Dim(), e), At(f, g.Dim(), Inner(g, dir, c)),
                Layer(g, dir, c))
  {
    hide *;
    SideIsGhost(g, dir, e, c);
    var l: nat := Layer(g, dir, c);
    SideCells(g, dir, c);
    GhostOnSide(g, dir, e, l);
    LineAddresses(g, dir, e, l);
    LineAddresses(g, dir, e, 1);
    InnerCell(g, dir, e);
    LineValueIs(f', f, Address(g, e), Outward(g, dir), Layers(g, dir), rule, l);
    AtAddress(g, f', c);
    AtAddress(g, f, Inside(g, dir, c));
    AtAddress(g, f, e);
    AtAddress(g, f, Inner(g, dir, c));
  }

  lemma AtAddress(g: Frame, f: seq<real>, c: Index)
    requires g.Sized() && |f| == g.Dim().Size() && g.Dim().Has(c.x, c.y, c.z)
    ensures 0 <= Address(g, c) < |f| && At(f, g.Dim(), c) == f[Address(g, c)]
  {
    hide Addr, Dims.Size;
  }

  lemma LineValueIs(f': seq<real>, f: seq<real>, base: int, offset: int, size: nat, rule: Rule, l: nat)
    requires |f| == |f'| && LineFits(|f|, base, offset, size) && LineDone(f', f, base, offset, size, size, rule)
    requires l < size
    ensures f'[Out(base, offset, l)] == GhostValue(rule, f[In(base, offset, l)], f[base], f[base - offset], l)
  {
  }

  lemma Untouched(g: Frame, dir: nat, rules: (nat, Index) -> Rule, f: seq<real>, f0: seq<real>, a: int, b: int,
                  c: Index)
    requires Reaches(g) && dir < 6 && |f| == |f0| == g.Dim().Size() && SideProgress(g, dir, rules, f, f0, a, b)
    requires g.Dim().Has(c.x, c.y, c.z) && Layer(g, dir, c) < 0
    ensures At(f, g.Dim(), c) == At(f0, g.Dim(), c)
  {
  }

  lemma OffColumn(g: Frame, dir: nat, rules: (nat, Index) -> Rule, f: seq<real>, f': seq<real>, f0: seq<real>, a: int,
                  b: int, e: Index, c: Index)
    requires Reaches(g) && dir < 6 && |f| == |f'| == |f0| == g.Dim().Size() && SideProgress(g, dir, rules, f, f0, a, b)
    requires g.IsCell(e) && e == Edge(g, dir, e) && PlaneA(dir / 2, e) == a + g.stm && PlaneB(dir / 2, e) == b + g.stm
    requires LineFits(|f|, Address(g, e), Outward(g, dir), Layers(g, dir))
    requires LineDone(f', f, Address(g, e), Outward(g, dir), Layers(g, dir), Layers(g, dir), rules(dir, e))
    requires !(OnSide(g, dir, c) && Edge(g, dir, c) == e) && g.Dim().Has(c.x, c.y, c.z)
    ensures At(f', g.Dim(), c) == At(if Visited(g, dir, c, a + 1, b) then Filled(g, dir, rules, f0) else f0, g.Dim(), c)
  {
    hide Addr, Out, In, Filled, LineValue;
    var d := g.Dim();
    forall l: nat | l < Layers(g, dir)
      ensures Addr(d, c.x, c.y, c.z) != Out(Address(g, e), Outward(g, dir), l)
    {
      var o := GhostAt(g, dir, e, l);
      GhostOnSide(g, dir, e, l);
      SideCells(g, dir, o);
      LineAddresses(g, dir, e, l);
      AddrInjective(d, c.x, c.y, c.z, o.x, o.y, o.z);
    }
    assert At(f', d, c) == At(f, d, c);
    if OnSide(g, dir, c) {
      assert PlaneA(dir / 2, c) != PlaneA(dir / 2, e) || PlaneB(dir / 2, c) != PlaneB(dir / 2, e);
    }
  }

  /** One of the six double loops of BCP and bct_Ins_Iso_Diff. */
  method FillSide(g: Frame, dir: nat, rules: (nat, Index) -> Rule, f: array<real>)
    requires Reaches(g) && dir < 6 && f.Length == g.Dim().Size()
    modifies f
    ensures f[..] == Filled(g, dir, rules, old(f[..]))
  {
    hide Addr, Out, In, LineDone, SideProgress, Filled, Visited, LineFits, Dims.Size;
    ghost var f0 := f[..];
    var k := dir / 2;
    var sizeA := if k == 2 then g.n.y else g.n.x;
    var sizeB := if k == 0 then g.n.y else g.n.z;
    SideStart(g, dir, rules, f0);
    for b := 0 to sizeB
      invariant SideProgress(g, dir, rules, f[..], f0, 0, b)
    {
      for a := 0 to sizeA
        invariant SideProgress(g, dir, rules, f[..], f0, a, b)
      {
        ghost var before := f[..];
        var e := PlaneCell(k, a + g.stm, b + g.stm, if Upper(dir) then Get(g.n, k) + g.stm - 1 else g.stm);
        SideLineFits(g, dir, e);
        FillLine(f, rules(dir, e), Address(g, e), Outward(g, dir), Layers(g, dir));
        ColumnStep(g, dir, rules, before, f[..], f0, a, b, e);
      }
      SideLine(g, dir, rules, f[..], f0, b);
    }
    SideEnd(g, dir, rules, f[..], f0);
  }

  lemma SideStart(g: Frame, dir: nat, rules: (nat, Index) -> Rule, f0: seq<real>)
    requires Reaches(g) && dir < 6 && |f0| == g.Dim().Size()
    ensures SideProgress(g, dir, rules, f0, f0, 0, 0)
  {
    hide At, Filled;
  }

  lemma SideLine(g: Frame, dir: nat, rules: (nat, Index) -> Rule, f: seq<real>, f0: seq<real>, b: int)
    requires Reaches(g) && dir < 6 && |f| == |f0| == g.Dim().Size()
    requires SideProgress(g, dir, rules, f, f0, if dir / 2 == 2 then g.n.y else g.n.x, b)
    ensures SideProgress(g, dir, rules, f, f0, 0, b + 1)
  {
    hide At, Filled;
    var w := if dir / 2 == 2 then g.n.y else g.n.x;
    forall c: Index | g.Dim().Has(c.x, c.y, c.z)
      ensures Visited(g, dir, c, w, b) <==> Visited(g, dir, c, 0, b + 1)
    {
    }
  }

  lemma SideEnd(g: Frame, dir: nat, rules: (nat, Index) -> Rule, f: seq<real>, f0: seq<real>)
    requires Reaches(g) && dir < 6 && |f| == |f0| == g.Dim().Size()
    requires SideProgress(g, dir, rules, f, f0, 0, if dir / 2 == 0 then g.n.y else g.n.z)
    ensures f == Filled(g, dir, rules, f0)
  {
    hide At, SideValue;
    var r := Filled(g, dir, rules, f0);
    forall c: Index | g.Dim().Has(c.x, c.y, c.z)
      ensures At(f, g.Dim(), c) == At(r, g.Dim(), c)
    {
      FilledAt(g, dir, rules, f0, c);
    }
    FieldsEqual(g.Dim(), f, r);
  }

  /** The field after the first m sides, in the order b, t, s, n, w, e, those with a neighbour left out. */
  function FilledSides(g: Frame, rules: (nat, Index) -> Rule, f: seq<real>, m: nat): (r: seq<real>)
    requires Reaches(g) && m <= 6 && |f| == g.Dim().Size()
    ensures |r| == |f|
  {
    if m == 0 then f
    else
      var h := FilledSides(g, rules, f, m - 1);
      if g.nrk[m - 1] == -1 then Filled(g, m - 1, rules, h) else h
  }

  /** BCP and bct_Ins_Iso_Diff. */
  method FillGhosts(g: Frame, rules: (nat, Index) -> Rule, f: array<real>)
    requires Reaches(g) && f.Length == g.Dim().Size()
    modifies f
    ensures f[..] == FilledSides(g, rules, old(f[..]), 6)
  {
    hide Filled;
    ghost var f0 := f[..];
    for m := 0 to 6
      invariant f[..] == FilledSides(g, rules, f0, m)
    {
      if g.nrk[m] == -1 {
        FillSide(g, m, rules, f);
      }
    }
  }

  /** A cell that is no ghost of a physical wall does not change. */
  lemma {:induction false} OthersKept(g: Frame, rules: (nat, Index) -> Rule, f: seq<real>, m: nat, c: Index)
    requires Reaches(g) && m <= 6 && |f| == g.Dim().Size() && g.Dim().Has(c.x, c.y, c.z)
    requires forall dir: nat | dir < m && g.nrk[dir] == -1 :: !OnSide(g, dir, c)
    ensures At(FilledSides(g, rules, f, m), g.Dim(), c) == At(f, g.Dim(), c)
  {
    if m > 0 {
      hide At, Filled, SideValue, OnSide;
      OthersKept(g, rules, f, m - 1, c);
      FilledAt(g, m - 1, rules, FilledSides(g, rules, f, m - 1), c);
    }
  }

  lemma CellsKept(g: Frame, rules: (nat, Index) -> Rule, f: seq<real>, m: nat, c: Index)
    requires Reaches(g) && m <= 6 && |f| == g.Dim().Size() && g.IsCell(c)
    ensures g.Dim().Has(c.x, c.y, c.z) && At(FilledSides(g, rules, f, m), g.Dim(), c) == At(f, g.Dim(), c)
  {
    hide At, FilledSides;
    OthersKept(g, rules, f, m, c);
  }

  /** The first ghost behind a wall cell follows its rule, whichever of the six sides are walls. */
  lemma {:induction false} FirstGhost(g: Frame, rules: (nat, Index) -> Rule, f: seq<real>, m: nat, dir: nat, c: Index)
    requires Reaches(g) && dir < m <= 6 && |f| == g.Dim().Size() && g.IsCell(c) && g.AtWall(c, dir)
    requires Layers(g, dir) > 0 && (rules(dir, c).Extrapolated? ==> Get(g.n, dir / 2) >= 2)
    ensures var o := Across(c, dir); g.Dim().Has(o.x, o.y, o.z)
    ensures var i := Inner(g, dir, c); g.Dim().Has(i.x, i.y, i.z)
    ensures g.Dim().Has(c.x, c.y, c.z)
    ensures At(FilledSides(g, rules, f, m), g.Dim(), Across(c, dir)) ==
            GhostValue(rules(dir, c), At(f, g.Dim(), c), At(f, g.Dim(), c), At(f, g.Dim(), Inner(g, dir, c)), 0)
  {
    hide At, Filled, SideValue, GhostValue, OnSide, Inner;
    var o := Across(c, dir);
    var h := FilledSides(g, rules, f, m - 1);
    FaceOfIsFace(g, c, dir);
    SideOfWall(g, dir, c);
    FilledAt(g, m - 1, rules, h, o);
    if m - 1 == dir {
      CellsKept(g, rules, f, m - 1, c);
      if Get(g.n, dir / 2) >= 2 {
        CellsKept(g, rules, f, m - 1, Inner(g, dir, c));
      }
      SideValueOfWall(g, dir, rules, h, c);
      InnerMatters(rules(dir, c), At(f, g.Dim(), c), At(h, g.Dim(), Inner(g, dir, c)),
          At(f, g.Dim(), Inner(g, dir, c)));
    } else {
      FirstGhost(g, rules, f, m - 1, dir, c);
      OneSideOnly(g, dir, m - 1, c);
    }
  }

  lemma InnerMatters(rule: Rule, edge: real, inner: real, inner': real)
    ensures !rule.Extrapolated? ==> GhostValue(rule, edge, edge, inner, 0) == GhostValue(rule, edge, edge, inner', 0)
  {
  }

  lemma OneSideOnly(g: Frame, dir: nat, dir': nat, c: Index)
    requires Reaches(g) && dir < 6 && dir' < 6 && dir != dir' && g.IsCell(c) && g.AtWall(c, dir)
    ensures !OnSide(g, dir', Across(c, dir))
  {
  }

  lemma SideOfWall(g: Frame, dir: nat, c: Index)
    requires Reaches(g) && dir < 6 && g.IsCell(c) && g.AtWall(c, dir) && Layers(g, dir) > 0
    ensures var o := Across(c, dir);
            OnSide(g, dir, o) && Layer(g, dir, o) == 0 && Edge(g, dir, o) == c && Inside(g, dir, o) == c &&
                Inner(g, dir, o) == Inner(g, dir, c)
    ensures var i := Inner(g, dir, c); g.Dim().Has(i.x, i.y, i.z) && (Get(g.n, dir / 2) >= 2 ==> g.IsCell(i))
  {
    hide Dims.Size;
    InnerOfWall(g, dir, c);
    hide Inner;
    EdgeOfWall(g, dir, c);
  }

  lemma InnerOfWall(g: Frame, dir: nat, c: Index)
    requires Reaches(g) && dir < 6 && g.IsCell(c) && g.AtWall(c, dir)
    ensures var i := Inner(g, dir, c); g.Dim().Has(i.x, i.y, i.z) && (Get(g.n, dir / 2) >= 2 ==> g.IsCell(i))
  {
    assert Edge(g, dir, c) == c;
    hide Edge;
  }

  lemma EdgeOfWall(g: Frame, dir: nat, c: Index)
    requires g.Sized() && dir < 6 && g.IsCell(c) && g.AtWall(c, dir)
    ensures var o := Across(c, dir);
            Layer(g, dir, o) == 0 && Edge(g, dir, o) == c && Inside(g, dir, o) == c &&
                Inner(g, dir, o) == Inner(g, dir, c)
  {
    assert Edge(g, dir, c) == c;
  }

  lemma SideValueOfWall(g: Frame, dir: nat, rules: (nat, Index) -> Rule, h: seq<real>, c: Index)
    requires Reaches(g) && dir < 6 && g.IsCell(c) && g.AtWall(c, dir) && Layers(g, dir) > 0 && |h| == g.Dim().Size()
    ensures var o := Across(c, dir); OnSide(g, dir, o)
    ensures var i := Inner(g, dir, c); g.Dim().Has(i.x, i.y, i.z)
    ensures g.Dim().Has(c.x, c.y, c.z)
    ensures SideValue(g, dir, rules, h, Across(c, dir)) ==
            GhostValue(rules(dir, c), At(h, g.Dim(), c), At(h, g.Dim(), c), At(h, g.Dim(), Inner(g, dir, c)), 0)
  {
    hide At, GhostValue;
    SideOfWall(g, dir, c);
  }

  /** Across a face that is no wall lies no ghost of any wall. */
  lemma NoGhostAcross(g: Frame, c: Index, dir: nat, dir': nat)
    requires Reaches(g) && g.IsCell(c) && dir < 6 && dir' < 6 && !g.AtWall(c, dir) && g.nrk[dir'] == -1
    ensures !OnSide(g, dir', Across(c, dir))
  {
  }
}
