/**
 struct_domain_find_p_if (jupiter/common_util.h, 351-412) as interleaved threads.  Every read and
 write of shared_found and every test of a cell is one step.  The barriers between blocks only narrow
 the possible interleavings, so they are left out here: what holds for all interleavings holds with
 them.  SearchBarriers is about the runs that respect them.
 */
module ParallelSearch {
  import opened Layout
  import opened WorkSharing

  /** The padded arrays, the stencil widths in front, the interior, and the threads' block sizes. */
  datatype Search = Search(m: Dims, st: Index, n: Dims, nbs: seq<int>) {

    ghost predicate Valid() {
      && |nbs| >= 1 && (forall t | 0 <= t < |nbs| :: nbs[t] > 0)
      && st.x >= 0 && st.y >= 0 && st.z >= 0
      && st.x + n.mx <= m.mx && st.y + n.my <= m.my && st.z + n.mz <= m.mz
    }

    /** The share of thread t. */
    function Part(t: nat): Range {
      Share(0, n.Size(), |nbs|, t)
    }

    /** The number of blocks thread t needs by itself. */
    function Own(t: nat): int
      requires t < |nbs|
    {
      Blocks(Part(t).hi - Part(t).lo, nbs[t])
    }

    function BlockOf(t: nat, ib: int): Range
      requires t < |nbs|
    {
      Block(Part(t), nbs[t], ib)
    }

    /** The address of the q-th interior cell. */
    function Cell(q: int): (jj: int)
      requires 0 <= q < n.Size()
    {
      var c := CellAt(n, q);
      Addr(m, c.x + st.x, c.y + st.y, c.z + st.z)
    }
  }

  /** An address of the arrays is that of an interior cell. */
  ghost predicate Interior(p: Search, jj: int) {
    exists x, y, z :: p.n.Has(x, y, z) && jj == Addr(p.m, x + p.st.x, y + p.st.y, z + p.st.z)
  }

  /** The loop indices number the interior cells. */
  lemma CellsAreInterior(p: Search, q: int)
    requires 0 <= q < p.n.Size()
    ensures Interior(p, p.Cell(q))
  {
    var c := CellAt(p.n, q);
    assert p.n.Has(c.x, c.y, c.z);
  }

  lemma InteriorIsCell(p: Search, jj: int) returns (q: int)
    requires p.Valid() && Interior(p, jj)
    ensures 0 <= q < p.n.Size() && p.Cell(q) == jj
  {
    var x, y, z :| p.n.Has(x, y, z) && jj == Addr(p.m, x + p.st.x, y + p.st.y, z + p.st.z);
    q := Addr(p.n, x, y, z);
    StructIndexOfAddr(p.n, x, y, z);
    SizePositive(p.n);
    var c := CellAt(p.n, q);
    StructIndexOfAddr(p.n, c.x, c.y, c.z);
  }

  /** func, asked about an address; its answer does not change during the search. */
  type Func = int -> bool

  /** Every index of the loop belongs to the share of one thread. */
  lemma SomeThread(p: Search, q: int) returns (t: nat)
    requires p.Valid() && 0 <= q < p.n.Size()
    ensures t < |p.nbs| && p.Part(t).lo <= q < p.Part(t).hi
  {
    SharesJoin(0, p.n.Size(), |p.nbs|, 0);
    t := Owner(0, p.n.Size(), |p.nbs|, q, |p.nbs|);
  }

  lemma PartInRange(p: Search, t: nat, q: int)
    requires p.Valid() && t < |p.nbs| && p.Part(t).lo <= q < p.Part(t).hi
    ensures 0 <= q < p.n.Size()
  {
    if p.n.Size() > 0 {
      ShareStarts(0, p.n.Size(), |p.nbs|, t);
      ShareEnds(0, p.n.Size(), |p.nbs|, t);
    }
  }

  /**
   A thread of the search: testing index j of block ib, about to write v, at the end of block ib, or out
   of the loop, which it left behind block ib (-1 if there are no blocks).
   */
  datatype Thread = Test(ib: int, j: int) | Write(ib: int, v: int) | EndOf(ib: int) | Left(ib: int)

  datatype World = World(found: int, at: seq<Thread>)

  function Begin(p: Search, t: nat, nb: int): Thread
    requires t < |p.nbs|
  {
    if nb > 0 then Start(p, t, 0) else Left(-1)
  }

  /** The world in which thread t has come to s. */
  function Moved(w: World, t: nat, s: Thread): World
    requires t < |w.at|
  {
    w.(at := w.at[t := s])
  }

  /** A thread at the start of block ib. */
  function Start(p: Search, t: nat, ib: int): Thread
    requires t < |p.nbs|
  {
    Test(ib, p.BlockOf(t, ib).lo)
  }

  /** What the next step of thread t leads to; nb is the number of blocks the team has agreed on. */
  function Acted(p: Search, f: Func, nb: int, w: World, t: nat): World
    requires t < |w.at| == |p.nbs|
  {
    match w.at[t]
    case Test(ib, j) =>
      if j >= p.BlockOf(t, ib).hi then Moved(w, t, EndOf(ib))
      else
        var c := StructIndexOf(j, p.n);
        if c.None? then Moved(w, t, Write(ib, -2))
        else
          var jj := Addr(p.m, c.value.x + p.st.x, c.value.y + p.st.y, c.value.z + p.st.z);
          Moved(w, t, if f(jj) then Write(ib, jj) else Test(ib, j + 1))
    case Write(ib, v) => World(v, w.at[t := EndOf(ib)])
    case EndOf(ib) => Moved(w, t, if ib < nb - 1 && w.found == -1 then Start(p, t, ib + 1) else Left(ib))
    case Left(_) => w
  }

  ghost predicate Step(p: Search, f: Func, nb: int, w: World, w': World, t: nat)
    requires p.Valid()
  {
    t < |w.at| == |p.nbs| && !w.at[t].Left? && w' == Acted(p, f, nb, w, t)
  }

  /** calc_struct_index, which the source also defines for empty arrays. */
  function StructIndexOf(a: int, d: Dims): Option<Index> {
    if d.mx > 0 && d.my > 0 then StructIndex(a, d) else None
  }

  ghost predicate SomeStep(p: Search, f: Func, nb: int, w: World, w': World)
    requires p.Valid()
  {
    exists t: nat :: Step(p, f, nb, w, w', t)
  }

  /** A run with the number of blocks the team has agreed on: the largest own number. */
  ghost predicate IsRun(p: Search, f: Func, nb: int, run: seq<World>)
    requires p.Valid()
  {
    && (forall t | 0 <= t < |p.nbs| :: nb >= p.Own(t))
    && |run| > 0 && run[0] == World(-1, seq(|p.nbs|, (t: nat) requires t < |p.nbs| => Begin(p, t, nb)))
    && (forall i, j | 0 <= i && j == i + 1 && j < |run| :: SomeStep(p, f, nb, run[i], run[j]))
  }

  /** The number every thread gets from distribute_thread_max_nb is such a number. */
  lemma AgreedBlocksSuffice(p: Search, run: seq<Team>, i: nat, t: nat)
    requires p.Valid() && t < |p.nbs| && i < |run|
    requires IsTeamRun(seq(|p.nbs|, (u: nat) requires u < |p.nbs| => p.Own(u)), run)
    ensures |run[i].at| == |run[i].result| == |p.nbs|
    ensures run[i].at[t] == Out ==> forall u | 0 <= u < |p.nbs| :: run[i].result[t] >= p.Own(u)
  {
    hide Search.Own, IsTeamRun;
    var nb := seq(|p.nbs|, (u: nat) requires u < |p.nbs| => p.Own(u));
    AllGetMaximum(nb, run, i, t);
    forall u | 0 <= u < |p.nbs|
      ensures nb[u] == p.Own(u)
    {
    }
  }

  /** No index of r before q matches. */
  ghost predicate NoMatch(p: Search, f: Func, r: Range, q: int) {
    forall i | r.lo <= i < r.hi && i < q && 0 <= i < p.n.Size() :: !f(p.Cell(i))
  }

  ghost predicate IsMatch(p: Search, f: Func, v: int) {
    f(v) && Interior(p, v)
  }

  /** What is known of thread t as long as nothing has been found. */
  ghost predicate ThreadKnows(p: Search, f: Func, nb: int, found: int, s: Thread, t: nat)
    requires p.Valid() && t < |p.nbs|
  {
    match s
    case Test(ib, j) =>
      && 0 <= ib < nb && p.BlockOf(t, ib).lo <= j && p.Part(t).lo <= j
      && (found == -1 ==> NoMatch(p, f, p.Part(t), j))
    case Write(ib, v) => 0 <= ib < nb && IsMatch(p, f, v)
    case EndOf(ib) => 0 <= ib < nb && (found == -1 ==> NoMatch(p, f, p.Part(t), p.BlockOf(t, ib + 1).lo))
    case Left(_) => found == -1 ==> NoMatch(p, f, p.Part(t), p.Part(t).hi)
  }

  ghost predicate Knows(p: Search, f: Func, nb: int, w: World)
    requires p.Valid()
  {
    && |w.at| == |p.nbs|
    && (w.found == -1 || IsMatch(p, f, w.found))
    && forall t | 0 <= t < |w.at| :: ThreadKnows(p, f, nb, w.found, w.at[t], t)
  }

  lemma NextBlock(p: Search, t: nat, ib: int)
    requires p.Valid() && t < |p.nbs| && ib >= 0
    ensures p.BlockOf(t, ib + 1).lo == p.BlockOf(t, ib).lo + p.nbs[t]
    ensures p.BlockOf(t, ib).lo >= p.Part(t).lo && p.BlockOf(t, ib).hi <= p.Part(t).hi
    ensures p.BlockOf(t, ib).hi <= p.BlockOf(t, ib + 1).lo
    ensures p.BlockOf(t, ib).hi >= p.BlockOf(t, ib + 1).lo || p.BlockOf(t, ib).hi == p.Part(t).hi
  {
    hide Share;
    var s := p.nbs[t];
    assert s * (ib + 1) == s * ib + s;
    assert s * ib >= 0;
  }

  /** After its last block a thread has seen its whole share. */
  lemma LastBlock(p: Search, nb: int, t: nat)
    requires p.Valid() && t < |p.nbs| && nb >= p.Own(t)
    ensures p.BlockOf(t, nb).lo >= p.Part(t).hi
  {
    hide Share;
    var s, n := p.nbs[t], p.Part(t).hi - p.Part(t).lo;
    if n > 0 {
      var k := (n - 1) / s;
      assert n - 1 < s * k + s;
      MulLe(k + 1, nb, s);
      assert s * (k + 1) == s * k + s;
    } else {
      MulLe(0, nb, s);
    }
  }

  /** One step of a thread: what it comes to know, and what the others may forget. */
  lemma TestKeeps(p: Search, f: Func, nb: int, w: World, w': World, t: nat)
    requires p.Valid() && Knows(p, f, nb, w) && Step(p, f, nb, w, w', t) && w.at[t].Test?
    ensures ThreadKnows(p, f, nb, w'.found, w'.at[t], t) && w'.found == w.found
  {
    hide Share, Interior;
    var ib, j := w.at[t].ib, w.at[t].j;
    assert ThreadKnows(p, f, nb, w.found, w.at[t], t);
    NextBlock(p, t, ib);
    if j < p.BlockOf(t, ib).hi {
      PartInRange(p, t, j);
      SizePositive(p.n);
      AddrOfStructIndex(p.n, j);
      CellsAreInterior(p, j);
    }
  }

  lemma StepKnows(p: Search, f: Func, nb: int, w: World, w': World, t: nat)
    requires p.Valid() && Knows(p, f, nb, w) && Step(p, f, nb, w, w', t)
    requires forall u | 0 <= u < |p.nbs| :: nb >= p.Own(u)
    ensures Knows(p, f, nb, w')
  {
    hide Share, NoMatch, StructIndexOf;
    MatchIsNotMissing(p, f);
    match w.at[t]
    case Test(ib, j) =>
      TestKeeps(p, f, nb, w, w', t);
    case Write(ib, v) =>
      assert ThreadKnows(p, f, nb, w.found, w.at[t], t);
    case EndOf(ib) =>
      assert ThreadKnows(p, f, nb, w.found, w.at[t], t);
      NextBlock(p, t, ib + 1);
      LastBlock(p, nb, t);
      if w.found == -1 && ib + 1 == nb {
        AllSeen(p, f, p.Part(t), p.BlockOf(t, ib + 1).lo);
      }
  }

  lemma AllSeen(p: Search, f: Func, r: Range, q: int)
    requires NoMatch(p, f, r, q) && q >= r.hi
    ensures NoMatch(p, f, r, r.hi)
  {
  }

  lemma MatchIsNotMissing(p: Search, f: Func)
    requires p.Valid()
    ensures !IsMatch(p, f, -1)
  {
    if Interior(p, -1) {
      var q := InteriorIsCell(p, -1);
      assert false;
    }
  }

  lemma BeginKnows(p: Search, f: Func, nb: int, run: seq<World>)
    requires p.Valid() && IsRun(p, f, nb, run)
    ensures Knows(p, f, nb, run[0])
  {
    hide Share;
    forall t | 0 <= t < |p.nbs|
      ensures ThreadKnows(p, f, nb, -1, run[0].at[t], t)
    {
      NextBlock(p, t, 0);
      LastBlock(p, nb, t);
      if nb == 0 {
        assert p.BlockOf(t, 0).lo == p.Part(t).lo;
      }
    }
  }

  lemma {:induction false} RunKnows(p: Search, f: Func, nb: int, run: seq<World>, i: nat)
    requires p.Valid() && IsRun(p, f, nb, run) && i < |run|
    ensures Knows(p, f, nb, run[i])
  {
    hide Knows, Step;
    if i == 0 {
      BeginKnows(p, f, nb, run);
    } else {
      RunKnows(p, f, nb, run, i - 1);
      assert SomeStep(p, f, nb, run[i - 1], run[i]);
      var t: nat :| Step(p, f, nb, run[i - 1], run[i], t);
      StepKnows(p, f, nb, run[i - 1], run[i], t);
    }
  }

  /** At any moment of any interleaving shared_found is -1 or an interior cell that satisfies func. */
  lemma FoundIsMatch(p: Search, f: Func, nb: int, run: seq<World>, i: nat)
    requires p.Valid() && IsRun(p, f, nb, run) && i < |run|
    ensures run[i].found == -1 || (f(run[i].found) && Interior(p, run[i].found))
  {
    RunKnows(p, f, nb, run, i);
  }

  /** Once all threads have left the loop, -1 means exactly that no interior cell satisfies func. */
  lemma MissingMeansNone(p: Search, f: Func, nb: int, run: seq<World>, i: nat)
    requires p.Valid() && IsRun(p, f, nb, run) && i < |run| && forall t | 0 <= t < |run[i].at| :: run[i].at[t].Left?
    ensures run[i].found == -1 <==> forall jj | Interior(p, jj) :: !f(jj)
  {
    hide Share, Interior;
    RunKnows(p, f, nb, run, i);
    if run[i].found == -1 {
      forall jj | Interior(p, jj)
        ensures !f(jj)
      {
        var q := InteriorIsCell(p, jj);
        var t := SomeThread(p, q);
        assert ThreadKnows(p, f, nb, -1, run[i].at[t], t);
      }
    }
  }
}
