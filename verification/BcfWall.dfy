/**
 Scalar ghost cells at physical walls (jupiter/boundary.c, bcf_wall, 283-362).  bcf_wall is
 written for 3 ghost layers below and 4 above, so a local axis has n + 7 layers.
 */
module BcfWall {
  import opened Layout
  import opened Slab
  import opened Ranks
  import opened Frames

  /** The extents of a local array with nx, ny, nz cells. */
  function Local(n: Index): Dims
    requires n.x >= 0 && n.y >= 0 && n.z >= 0
  {
    Dims(n.x + 7, n.y + 7, n.z + 7)
  }

  predicate Sized(n: Index) {
    n.x >= 1 && n.y >= 1 && n.z >= 1
  }

  predicate Ghost(n: Index, k: nat, up: bool, c: Index) {
    if up then Get(c, k) >= Get(n, k) + 3 else Get(c, k) < 3
  }

  /** The mirror image of a cell in the wall on side (k, up). */
  function Image(n: Index, k: nat, up: bool, c: Index): Index {
    Put(c, k, if up then 2 * Get(n, k) + 5 - Get(c, k) else 5 - Get(c, k))
  }

  lemma ImageHas(n: Index, k: nat, up: bool, c: Index)
    requires Sized(n) && k < 3 && Local(n).Has(c.x, c.y, c.z) && Ghost(n, k, up, c)
    ensures var a := Image(n, k, up, c); Local(n).Has(a.x, a.y, a.z) && !Ghost(n, k, up, a)
  {
  }

  /** The field after the wall on side (k, up) has been mirrored. */
  function Mirrored(f: seq<real>, n: Index, k: nat, up: bool): (g: seq<real>)
    requires Sized(n) && |f| == Local(n).Size() && k < 3
    ensures |g| == |f|
  {
    var d := Local(n);
    seq(d.Size(), (j: nat) requires j < d.Size() =>
      var c := CellAt(d, j);
      if Ghost(n, k, up, c) then
        ImageHas(n, k, up, c);
        At(f, d, Image(n, k, up, c))
      else f[j])
  }

  lemma MirroredAt(f: seq<real>, n: Index, k: nat, up: bool, c: Index)
    requires Sized(n) && |f| == Local(n).Size() && k < 3 && Local(n).Has(c.x, c.y, c.z)
    ensures Ghost(n, k, up, c) ==> var a := Image(n, k, up, c); Local(n).Has(a.x, a.y, a.z)
    ensures At(Mirrored(f, n, k, up), Local(n), c) ==
            if Ghost(n, k, up, c) then At(f, Local(n), Image(n, k, up, c)) else At(f, Local(n), c)
  {
    if Ghost(n, k, up, c) {
      ImageHas(n, k, up, c);
    }
    StructIndexOfAddr(Local(n), c.x, c.y, c.z);
  }

  /** The cells whose ghost value has been written when the loops stand at (a, b, l). */
  ghost predicate Done(n: Index, k: nat, up: bool, c: Index, a: int, b: int, l: int)
    requires k < 3
  {
    Ghost(n, k, up, c) &&
    Before(if up then Get(c, k) - Get(n, k) - 3 else Get(c, k), PlaneA(k, c), PlaneB(k, c), l, a, b)
  }

  ghost predicate Progress(f: seq<real>, f0: seq<real>, n: Index, k: nat, up: bool, a: int, b: int, l: int)
    requires Sized(n) && |f| == |f0| == Local(n).Size() && k < 3
  {
    forall c: Index | Local(n).Has(c.x, c.y, c.z) ::
      At(f, Local(n), c) == At(if Done(n, k, up, c, a, b, l) then Mirrored(f0, n, k, up) else f0, Local(n), c)
  }

  /** The ghost cell of layer l in front of (a, b), and its mirror image. */
  function GhostCell(n: Index, k: nat, up: bool, a: int, b: int, l: int): Index {
    PlaneCell(k, a, b, if up then Get(n, k) + 3 + l else l)
  }

  function MirrorCell(n: Index, k: nat, up: bool, a: int, b: int, l: int): Index {
    PlaneCell(k, a, b, if up then Get(n, k) + 2 - l else 5 - l)
  }

  predicate InLoops(n: Index, k: nat, up: bool, a: int, b: int, l: int) {
    && Sized(n) && k < 3 && 0 <= l < (if up then 4 else 3)
    && 0 <= a < (if k == 2 then Local(n).my else Local(n).mx)
    && 0 <= b < (if k == 0 then Local(n).my else Local(n).mz)
  }

  lemma LoopCells(n: Index, k: nat, up: bool, a: int, b: int, l: int)
    requires InLoops(n, k, up, a, b, l)
    ensures var to, from := GhostCell(n, k, up, a, b, l), MirrorCell(n, k, up, a, b, l);
            && Local(n).Has(to.x, to.y, to.z) && Local(n).Has(from.x, from.y, from.z)
            && Ghost(n, k, up, to) && !Ghost(n, k, up, from) && Image(n, k, up, to) == from
  {
  }

  /** One more place of the loops makes one more ghost done. */
  lemma OneMoreDone(n: Index, k: nat, up: bool, a: int, b: int, l: int, c: Index)
    requires InLoops(n, k, up, a, b, l) && Local(n).Has(c.x, c.y, c.z)
    ensures Done(n, k, up, c, a, b, l + 1) <==> Done(n, k, up, c, a, b, l) || c == GhostCell(n, k, up, a, b, l)
    ensures !Done(n, k, up, GhostCell(n, k, up, a, b, l), a, b, l)
  {
  }

  /** One statement of the loop body: layer l of the ghost layers gets its mirror image. */
  lemma ProgressStep(f: seq<real>, f0: seq<real>, n: Index, k: nat, up: bool, a: int, b: int, l: int)
    requires InLoops(n, k, up, a, b, l) && |f| == |f0| == Local(n).Size()
    requires Progress(f, f0, n, k, up, a, b, l)
    ensures var to, from := GhostCell(n, k, up, a, b, l), MirrorCell(n, k, up, a, b, l);
            && Local(n).Has(to.x, to.y, to.z) && Local(n).Has(from.x, from.y, from.z)
            && Progress(f[Addr(Local(n), to.x, to.y, to.z) := At(f, Local(n), from)], f0, n, k, up, a, b, l + 1)
  {
    hide Mirrored, Dims.Size, GhostCell, MirrorCell, Done, Ghost, Image;
    var d := Local(n);
    var to, from := GhostCell(n, k, up, a, b, l), MirrorCell(n, k, up, a, b, l);
    LoopCells(n, k, up, a, b, l);
    MirroredAt(f0, n, k, up, to);
    NotDone(n, k, up, from, a, b, l);
    assert At(f, d, from) == At(f0, d, from);
    var g := f[Addr(d, to.x, to.y, to.z) := At(f, d, from)];
    forall c: Index | d.Has(c.x, c.y, c.z)
      ensures At(g, d, c) == At(if Done(n, k, up, c, a, b, l + 1) then Mirrored(f0, n, k, up) else f0, d, c)
    {
      hide Addr;
      AddrInjective(d, c.x, c.y, c.z, to.x, to.y, to.z);
      OneMoreDone(n, k, up, a, b, l, c);
      assert At(f, d, c) == At(if Done(n, k, up, c, a, b, l) then Mirrored(f0, n, k, up) else f0, d, c);
    }
  }

  lemma NotDone(n: Index, k: nat, up: bool, c: Index, a: int, b: int, l: int)
    requires k < 3 && !Ghost(n, k, up, c)
    ensures !Done(n, k, up, c, a, b, l)
  {
  }

  /** One of the six loop nests of bcf_wall. */
  method MirrorWall(f: array<real>, n: Index, k: nat, up: bool)
    requires Sized(n) && f.Length == Local(n).Size() && k < 3
    modifies f
    ensures f[..] == Mirrored(old(f[..]), n, k, up)
  {
    var d := Local(n);
    ghost var f0 := f[..];
    var sizeA := if k == 2 then d.my else d.mx;
    var sizeB := if k == 0 then d.my else d.mz;
    var layers := if up then 4 else 3;
    NothingDone(f0, n, k, up);
    hide Addr, Mirrored, Progress, Dims.Size, GhostCell, MirrorCell;
    for jb := 0 to sizeB
      invariant Progress(f[..], f0, n, k, up, 0, jb, 0)
    {
      for ja := 0 to sizeA
        invariant Progress(f[..], f0, n, k, up, ja, jb, 0)
      {
        for l := 0 to layers
          invariant Progress(f[..], f0, n, k, up, ja, jb, l)
        {
          ProgressStep(f[..], f0, n, k, up, ja, jb, l);
          var to, from := GhostCell(n, k, up, ja, jb, l), MirrorCell(n, k, up, ja, jb, l);
          f[Addr(d, to.x, to.y, to.z)] := f[Addr(d, from.x, from.y, from.z)];
        }
        NextColumn(f[..], f0, n, k, up, ja, jb);
      }
      NextLine(f[..], f0, n, k, up, jb);
    }
    AllDone(f[..], f0, n, k, up);
  }

  lemma NothingDone(f: seq<real>, n: Index, k: nat, up: bool)
    requires Sized(n) && |f| == Local(n).Size() && k < 3
    ensures Progress(f, f, n, k, up, 0, 0, 0)
  {
    hide At, Mirrored;
  }

  lemma NextColumn(f: seq<real>, f0: seq<real>, n: Index, k: nat, up: bool, a: int, b: int)
    requires Sized(n) && |f| == |f0| == Local(n).Size() && k < 3
    requires Progress(f, f0, n, k, up, a, b, if up then 4 else 3)
    ensures Progress(f, f0, n, k, up, a + 1, b, 0)
  {
    hide At, Mirrored;
    forall c: Index | Local(n).Has(c.x, c.y, c.z)
      ensures Done(n, k, up, c, a, b, if up then 4 else 3) <==> Done(n, k, up, c, a + 1, b, 0)
    {
    }
  }

  lemma NextLine(f: seq<real>, f0: seq<real>, n: Index, k: nat, up: bool, b: int)
    requires Sized(n) && |f| == |f0| == Local(n).Size() && k < 3
    requires Progress(f, f0, n, k, up, if k == 2 then Local(n).my else Local(n).mx, b, 0)
    ensures Progress(f, f0, n, k, up, 0, b + 1, 0)
  {
    hide At, Mirrored;
    forall c: Index | Local(n).Has(c.x, c.y, c.z)
      ensures Done(n, k, up, c, if k == 2 then Local(n).my else Local(n).mx, b, 0) <==> Done(n, k, up, c, 0, b + 1, 0)
    {
    }
  }

  lemma AllDone(f: seq<real>, f0: seq<real>, n: Index, k: nat, up: bool)
    requires Sized(n) && |f| == |f0| == Local(n).Size() && k < 3
    requires Progress(f, f0, n, k, up, 0, if k == 0 then Local(n).my else Local(n).mz, 0)
    ensures f == Mirrored(f0, n, k, up)
  {
    var d := Local(n);
    forall c: Index | d.Has(c.x, c.y, c.z)
      ensures At(f, d, c) == At(Mirrored(f0, n, k, up), d, c)
    {
      MirroredAt(f0, n, k, up, c);
    }
    FieldsEqual(d, f, Mirrored(f0, n, k, up));
  }

  /** The walls of axis k, lower before upper, and the first k axes in the order z, y, x. */
  function AxisWalls(f: seq<real>, n: Index, nrk: seq<int>, k: nat): (g: seq<real>)
    requires Sized(n) && |f| == Local(n).Size() && |nrk| == 6 && k < 3
    ensures |g| == |f|
  {
    var f1 := if nrk[2 * k] == -1 then Mirrored(f, n, k, false) else f;
    if nrk[2 * k + 1] == -1 then Mirrored(f1, n, k, true) else f1
  }

  function Walls(f: seq<real>, n: Index, nrk: seq<int>, k: nat): (g: seq<real>)
    requires Sized(n) && |f| == Local(n).Size() && |nrk| == 6 && k <= 3
    ensures |g| == |f|
  {
    if k == 0 then f else AxisWalls(Walls(f, n, nrk, k - 1), n, nrk, k - 1)
  }

  /** bcf_wall. */
  method Wall(f: array<real>, n: Index, nrk: array<int>)
    requires Sized(n) && f.Length == Local(n).Size() && nrk.Length == 6
    modifies f
    ensures f[..] == Walls(old(f[..]), n, nrk[..], 3)
  {
    hide Mirrored, Dims.Size;
    ghost var f0 := f[..];
    if nrk[0] == -1 { MirrorWall(f, n, 0, false); }
    if nrk[1] == -1 { MirrorWall(f, n, 0, true); }
    assert f[..] == Walls(f0, n, nrk[..], 1);
    if nrk[2] == -1 { MirrorWall(f, n, 1, false); }
    if nrk[3] == -1 { MirrorWall(f, n, 1, true); }
    assert f[..] == Walls(f0, n, nrk[..], 2);
    if nrk[4] == -1 { MirrorWall(f, n, 2, false); }
    if nrk[5] == -1 { MirrorWall(f, n, 2, true); }
  }

  /** The layer whose value a wall cell shows: folded back at each wall of the axis. */
  function Fold(n: Index, nrk: seq<int>, k: nat, c: int): int
    requires |nrk| == 6 && k < 3
  {
    if nrk[2 * k] == -1 && c < 3 then 5 - c
    else if nrk[2 * k + 1] == -1 && c >= Get(n, k) + 3 then 2 * Get(n, k) + 5 - c
    else c
  }

  /** With four cells an axis the two walls of the axis do not see each other's ghosts. */
  lemma AxisWallsAt(f: seq<real>, n: Index, nrk: seq<int>, k: nat, c: Index)
    requires n.x >= 4 && n.y >= 4 && n.z >= 4 && |f| == Local(n).Size() && |nrk| == 6 && k < 3
    requires Local(n).Has(c.x, c.y, c.z)
    ensures var a := Put(c, k, Fold(n, nrk, k, Get(c, k)));
            && Local(n).Has(a.x, a.y, a.z)
            && At(AxisWalls(f, n, nrk, k), Local(n), c) == At(f, Local(n), a)
  {
    hide At, Mirrored;
    var f1 := if nrk[2 * k] == -1 then Mirrored(f, n, k, false) else f;
    MirroredAt(f, n, k, false, c);
    MirroredAt(f1, n, k, true, c);
    if Ghost(n, k, true, c) {
      ImageHas(n, k, true, c);
      MirroredAt(f, n, k, false, Image(n, k, true, c));
    }
  }

  function Folded(n: Index, nrk: seq<int>, c: Index): Index
    requires |nrk| == 6
  {
    Index(Fold(n, nrk, 2, c.x), Fold(n, nrk, 1, c.y), Fold(n, nrk, 0, c.z))
  }

  /** bcf_wall in closed form: every cell shows the value of the cell folded back on all three axes. */
  lemma WallsAt(f: seq<real>, n: Index, nrk: seq<int>, c: Index)
    requires n.x >= 4 && n.y >= 4 && n.z >= 4 && |f| == Local(n).Size() && |nrk| == 6
    requires Local(n).Has(c.x, c.y, c.z)
    ensures var a := Folded(n, nrk, c);
            && Local(n).Has(a.x, a.y, a.z)
            && At(Walls(f, n, nrk, 3), Local(n), c) == At(f, Local(n), a)
  {
    hide At, AxisWalls;
    var f1, f2 := Walls(f, n, nrk, 1), Walls(f, n, nrk, 2);
    assert f1 == AxisWalls(f, n, nrk, 0) by { assert Walls(f, n, nrk, 0) == f; }
    assert f2 == AxisWalls(f1, n, nrk, 1);
    AxisWallsAt(f2, n, nrk, 2, c);
    var cx := Put(c, 2, Fold(n, nrk, 2, c.x));
    AxisWallsAt(f1, n, nrk, 1, cx);
    var cy := Put(cx, 1, Fold(n, nrk, 1, c.y));
    AxisWallsAt(f, n, nrk, 0, cy);
    assert Put(cy, 0, Fold(n, nrk, 0, c.z)) == Folded(n, nrk, c);
  }
}
