/**
 Which cell struct_domain_find_p_if finds (jupiter/common_util.h, 351-412) when the threads respect the
 barriers: the blocks are searched side by side, and the result comes from the first of them in which
 any thread has a matching cell.
 */
module SearchResult {
  import opened Layout
  import opened WorkSharing
  import opened ParallelSearch
  import opened SearchBarriers

  /** No index of block ib of thread t matches before q. */
  ghost predicate NoneIn(p: Search, f: Func, t: nat, ib: int, q: int)
    requires p.Valid() && t < |p.nbs|
  {
    forall i | 0 <= i < p.n.Size() && InBlock(p, t, ib, i) && i < q :: !f(p.Cell(i))
  }

  /** v is the first matching cell of block ib of thread t. */
  ghost predicate FirstIn(p: Search, f: Func, t: nat, ib: int, v: int)
    requires p.Valid() && t < |p.nbs|
  {
    exists q | 0 <= q < p.n.Size() && InBlock(p, t, ib, q) :: v == p.Cell(q) && f(v) && NoneIn(p, f, t, ib, q)
  }

  ghost predicate Seen(p: Search, f: Func, s: Thread, t: nat)
    requires p.Valid() && t < |p.nbs|
  {
    match s
    case Test(ib, j) => ib >= 0 && p.BlockOf(t, ib).lo <= j && NoneIn(p, f, t, ib, j)
    case Write(ib, v) => ib >= 0 && FirstIn(p, f, t, ib, v)
    case EndOf(ib) => ib >= 0
    case Left(_) => true
  }

  /** v comes from the first block row with a match. */
  ghost predicate FromFirst(p: Search, f: Func, t: nat, ib: int, v: int)
    requires p.Valid() && t < |p.nbs|
  {
    ib >= 0 && NoneBefore(p, f, ib) && FirstIn(p, f, t, ib, v)
  }

  ghost predicate AllSeen(p: Search, f: Func, w: World)
    requires p.Valid()
  {
    && |w.at| == |p.nbs| && (forall t | 0 <= t < |p.nbs| :: Seen(p, f, w.at[t], t))
    && (w.found == -1 || exists t: nat, ib | t < |p.nbs| :: FromFirst(p, f, t, ib, w.found))
  }

  lemma TestSees(p: Search, f: Func, nb: int, w: World, w': World, t: nat)
    requires p.Valid() && AllSeen(p, f, w) && Step(p, f, nb, w, w', t) && w.at[t].Test?
    ensures Seen(p, f, w'.at[t], t) && w'.found == w.found
  {
    hide WorkSharing.Share, Search.BlockOf, Search.Part, Search.Cell, StructIndexOf, Addr;
    assert Seen(p, f, w.at[t], t);
    var ib, j := w.at[t].ib, w.at[t].j;
    if j < p.BlockOf(t, ib).hi {
      assert InBlock(p, t, ib, j);
      TestStep(p, f, nb, w, t);
    }
  }

  lemma StepSees(p: Search, f: Func, nb: int, w: World, w': World, t: nat)
    requires p.Valid() && AllSeen(p, f, w) && Together(p, f, nb, w) && BarredStep(p, f, nb, w, w', t)
    ensures AllSeen(p, f, w')
  {
    hide WorkSharing.Share, Search.BlockOf, Search.Part, Search.Cell, StructIndexOf, Addr, NoneIn, FirstIn, HasMatch,
      InBlock, InStep, Reached;
    OneThread(p, f, nb, w, w', t);
    assert Seen(p, f, w.at[t], t);
    match w.at[t]
    case Test(ib, j) => TestSees(p, f, nb, w, w', t);
    case Write(ib, v) => assert FromFirst(p, f, t, ib, w'.found);
    case EndOf(ib) => StartSees(p, f, t, ib + 1);
  }

  /** A thread at the start of a block has seen nothing of it. */
  lemma StartSees(p: Search, f: Func, t: nat, ib: int)
    requires p.Valid() && t < |p.nbs| && ib >= 0
    ensures Seen(p, f, Start(p, t, ib), t)
  {
    hide Search.BlockOf, Search.Cell;
  }

  lemma BeginSees(p: Search, f: Func, nb: int, run: seq<World>)
    requires p.Valid() && IsRun(p, f, nb, run)
    ensures AllSeen(p, f, run[0])
  {
    hide SomeStep, Search.Own, Search.BlockOf, Search.Part, Start, Seen;
    forall t | 0 <= t < |p.nbs|
      ensures Seen(p, f, run[0].at[t], t)
    {
      if nb > 0 {
        StartSees(p, f, t, 0);
      } else {
        NothingToSee(p, f, t);
      }
    }
  }

  lemma NothingToSee(p: Search, f: Func, t: nat)
    requires p.Valid() && t < |p.nbs|
    ensures Seen(p, f, Left(-1), t)
  {
  }

  lemma {:induction false} RunSees(p: Search, f: Func, nb: int, run: seq<World>, i: nat)
    requires p.Valid() && IsBarredRun(p, f, nb, run) && i < |run|
    ensures AllSeen(p, f, run[i])
  {
    hide Together, BarredStep, AllSeen;
    if i == 0 {
      BeginSees(p, f, nb, run);
    } else {
      RunSees(p, f, nb, run, i - 1);
      RunTogether(p, f, nb, run, i - 1);
      assert SomeBarredStep(p, f, nb, run[i - 1], run[i]);
      var t: nat :| BarredStep(p, f, nb, run[i - 1], run[i], t);
      StepSees(p, f, nb, run[i - 1], run[i], t);
    }
  }

  /**
   At every moment of a run that respects the barriers a result is the first matching cell in some
   thread's b-th block, where b is the first block number with a matching cell in any thread's share.
   */
  lemma FoundInFirstBlock(p: Search, f: Func, nb: int, run: seq<World>, i: nat) returns (t: nat, b: int)
    requires p.Valid() && IsBarredRun(p, f, nb, run) && i < |run| && run[i].found != -1
    ensures FirstMatch(p, f, b) && t < |p.nbs| && FirstIn(p, f, t, b, run[i].found)
  {
    hide WorkSharing.Share, Search.BlockOf, Search.Part, Search.Cell, NoneIn, InBlock, Seen;
    RunSees(p, f, nb, run, i);
    t, b :| t < |p.nbs| && FromFirst(p, f, t, b, run[i].found);
    var q :| 0 <= q < p.n.Size() && InBlock(p, t, b, q) && run[i].found == p.Cell(q) && f(run[i].found);
    assert HasMatch(p, f, b);
  }
}
