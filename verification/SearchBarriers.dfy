/**
 The barriers of struct_domain_find_p_if (jupiter/common_util.h, 394-410): behind every block but the
 last the threads wait for each other and then read shared_found.  A thread may read late and see
 what another has already found in the next block, so the threads need not leave the loop behind the
 same block, and one of them may wait for ever at a barrier the others have left behind.  Both happen
 exactly when a condition on the cells and the blocks holds.
 */
module SearchBarriers {
  import opened Layout
  import opened WorkSharing
  import opened ParallelSearch

  /** The block whose end was the last a thread came to. */
  function Reached(s: Thread): int {
    match s
    case Test(ib, _) => ib - 1
    case Write(ib, _) => ib - 1
    case EndOf(ib) => ib
    case Left(ib) => ib
  }

  /** The barrier behind block ib lets its threads pass when every thread has come to it. */
  predicate Arrived(w: World, ib: int) {
    forall u | 0 <= u < |w.at| :: Reached(w.at[u]) >= ib
  }

  /** A step that respects the barriers. */
  ghost predicate BarredStep(p: Search, f: Func, nb: int, w: World, w': World, t: nat)
    requires p.Valid()
  {
    Step(p, f, nb, w, w', t) && (w.at[t].EndOf? && w.at[t].ib < nb - 1 ==> Arrived(w, w.at[t].ib))
  }

  ghost predicate SomeBarredStep(p: Search, f: Func, nb: int, w: World, w': World)
    requires p.Valid()
  {
    exists t: nat :: BarredStep(p, f, nb, w, w', t)
  }

  /** A run whose steps all respect the barriers. */
  ghost predicate IsBarredRun(p: Search, f: Func, nb: int, run: seq<World>)
    requires p.Valid()
  {
    && IsRun(p, f, nb, run)
    && (forall i, j | 0 <= i && j == i + 1 && j < |run| :: SomeBarredStep(p, f, nb, run[i], run[j]))
  }

  /** Where a run has got to. */
  function Last(run: seq<World>): World
    requires |run| > 0
  {
    run[|run| - 1]
  }

  /** One thread is out of the loop while another has gone further, or had gone further before it left. */
  ghost predicate Apart(w: World) {
    exists t, u | 0 <= t < |w.at| && 0 <= u < |w.at| :: w.at[u].Left? && w.at[t].ib > w.at[u].ib
  }

  /** Thread t waits at a barrier that another thread will never come to. */
  ghost predicate WaitsInVain(w: World, nb: int, t: nat) {
    && t < |w.at| && w.at[t].EndOf? && w.at[t].ib < nb - 1
    && exists u | 0 <= u < |w.at| :: w.at[u].Left? && w.at[u].ib < w.at[t].ib
  }

  ghost predicate Stranded(w: World, nb: int) {
    exists t: nat :: WaitsInVain(w, nb, t)
  }

  /** Some thread's block ib holds a matching cell. */
  ghost predicate HasMatch(p: Search, f: Func, ib: int)
    requires p.Valid()
  {
    exists t: nat, q | t < |p.nbs| && 0 <= q < p.n.Size() :: InBlock(p, t, ib, q) && f(p.Cell(q))
  }

  predicate InBlock(p: Search, t: nat, ib: int, q: int)
    requires t < |p.nbs|
  {
    p.BlockOf(t, ib).lo <= q < p.BlockOf(t, ib).hi
  }

  /** b is the first block with a matching cell. */
  ghost predicate FirstMatch(p: Search, f: Func, b: int)
    requires p.Valid()
  {
    b >= 0 && HasMatch(p, f, b) && NoneBefore(p, f, b)
  }

  ghost predicate NoneBefore(p: Search, f: Func, b: int)
    requires p.Valid()
  {
    forall c | 0 <= c < b :: !HasMatch(p, f, c)
  }

  /** No thread is ahead of a barrier another one has not come to. */
  ghost predicate InStep(w: World, nb: int) {
    && (forall t | 0 <= t < |w.at| :: if nb > 0 then 0 <= w.at[t].ib < nb else w.at[t].ib == -1)
    && (forall t | 0 <= t < |w.at| :: Arrived(w, w.at[t].ib - 1))
  }

  /** Whoever has left before the last block has seen a result. */
  ghost predicate LeftForAReason(w: World, nb: int) {
    forall t | 0 <= t < |w.at| :: w.at[t].Left? && w.at[t].ib < nb - 1 ==> w.found != -1
  }

  /** No thread is beyond a match, and a result comes from a block some thread has come to. */
  ghost predicate NotBeyond(p: Search, f: Func, w: World)
    requires p.Valid()
  {
    && (forall t | 0 <= t < |w.at| :: NoneBefore(p, f, w.at[t].ib))
    && (forall t | 0 <= t < |w.at| :: w.at[t].Write? ==> w.at[t].ib >= 0 && HasMatch(p, f, w.at[t].ib))
    && (w.found != -1 ==> exists t | 0 <= t < |w.at| :: MatchUpTo(p, f, w.at[t].ib))
  }

  /** What every moment of a run with barriers satisfies. */
  ghost predicate Together(p: Search, f: Func, nb: int, w: World)
    requires p.Valid()
  {
    |w.at| == |p.nbs| && InStep(w, nb) && LeftForAReason(w, nb) && NotBeyond(p, f, w)
  }

  ghost predicate MatchUpTo(p: Search, f: Func, ib: int)
    requires p.Valid()
  {
    exists c | 0 <= c <= ib :: HasMatch(p, f, c)
  }

  /** A thread that has come to the end of block ib, while nothing has been found, has seen no match in it. */
  lemma NoMatchInBlock(p: Search, f: Func, nb: int, s: Thread, t: nat, ib: int, q: int)
    requires p.Valid() && t < |p.nbs| && ib >= 0 && (s == EndOf(ib) || s == Left(ib))
    requires ThreadKnows(p, f, nb, -1, s, t) && InBlock(p, t, ib, q) && 0 <= q < p.n.Size()
    ensures !f(p.Cell(q))
  {
    hide WorkSharing.Share, Search.Cell, Search.BlockOf;
    NextBlock(p, t, ib);
  }

  /** Once every thread has come to the end of block ib and nothing has been found, it holds no match. */
  lemma NothingHere(p: Search, f: Func, nb: int, w: World, ib: int)
    requires p.Valid() && Knows(p, f, nb, w) && Together(p, f, nb, w)
    requires w.found == -1 && Arrived(w, ib) && ib >= 0
    ensures !HasMatch(p, f, ib)
  {
    hide WorkSharing.Share, Search.Cell, Search.BlockOf, Search.Part, InBlock, ThreadKnows;
    if HasMatch(p, f, ib) {
      var t: nat, q :| t < |p.nbs| && 0 <= q < p.n.Size() && InBlock(p, t, ib, q) && f(p.Cell(q));
      assert Reached(w.at[t]) >= ib;
      assert w.at[t].ib <= ib;
      NoMatchInBlock(p, f, nb, w.at[t], t, ib, q);
    }
  }

  /** Writing a match. */
  lemma WriterHasMatch(p: Search, f: Func, nb: int, w: World, w': World, t: nat)
    requires p.Valid() && Knows(p, f, nb, w) && Step(p, f, nb, w, w', t) && w.at[t].Test? && w'.at[t].Write?
    ensures w.at[t].ib >= 0 && HasMatch(p, f, w.at[t].ib) && w'.at[t].ib == w.at[t].ib
  {
    hide WorkSharing.Share;
    var ib, j := w.at[t].ib, w.at[t].j;
    assert ThreadKnows(p, f, nb, w.found, w.at[t], t);
    NextBlock(p, t, ib);
    PartInRange(p, t, j);
    SizePositive(p.n);
    AddrOfStructIndex(p.n, j);
    assert InBlock(p, t, ib, j);
  }

  /** A step of thread t changes no other thread. */
  lemma OneThread(p: Search, f: Func, nb: int, w: World, w': World, t: nat)
    requires p.Valid() && Step(p, f, nb, w, w', t)
    ensures |w'.at| == |w.at| && t < |w.at| && forall u | 0 <= u < |w.at| && u != t :: w'.at[u] == w.at[u]
    ensures w.at[t].ib <= w'.at[t].ib <= w.at[t].ib + 1 && Reached(w.at[t]) <= Reached(w'.at[t])
    ensures w'.at[t].ib > w.at[t].ib ==> w.at[t] == EndOf(w.at[t].ib) && w.at[t].ib < nb - 1
    ensures w'.at[t].ib > w.at[t].ib ==> w.found == -1 == w'.found
    ensures w'.found != w.found ==> w.at[t].Write? && w'.at[t] == EndOf(w.at[t].ib)
    ensures w'.at[t].Write? ==> w.at[t].Test?
    ensures w'.at[t].Left? ==> w.at[t] == EndOf(w.at[t].ib) && w'.found == w.found
    ensures w'.at[t].Left? ==> (w.at[t].ib < nb - 1 ==> w.found != -1)
  {
  }

  /** What OneThread says of a step, without the cells. */
  ghost predicate Moves(w: World, w': World, nb: int, t: nat) {
    && |w'.at| == |w.at| && t < |w.at| && (forall u | 0 <= u < |w.at| && u != t :: w'.at[u] == w.at[u])
    && w.at[t].ib <= w'.at[t].ib <= w.at[t].ib + 1 && Reached(w.at[t]) <= Reached(w'.at[t])
    && (w'.at[t].ib > w.at[t].ib ==> w.at[t] == EndOf(w.at[t].ib) && w.at[t].ib < nb - 1 && w.found == -1 == w'.found)
    && (w'.found != w.found ==> w.at[t].Write? && w'.at[t] == EndOf(w.at[t].ib))
    && (w'.at[t].Write? ==> w.at[t].Test?)
    && (w'.at[t].Left? ==> w.at[t] == EndOf(w.at[t].ib) && (w.at[t].ib < nb - 1 ==> w.found != -1))
    && (w.found != -1 ==> w'.found != -1)
  }

  lemma MovesInStep(w: World, w': World, nb: int, t: nat)
    requires InStep(w, nb) && Moves(w, w', nb, t) && (w.at[t].EndOf? && w.at[t].ib < nb - 1 ==> Arrived(w, w.at[t].ib))
    ensures InStep(w', nb)
  {
    forall u | 0 <= u < |w'.at|
      ensures Arrived(w', w'.at[u].ib - 1)
    {
      assert Arrived(w, w.at[u].ib - 1);
      forall v | 0 <= v < |w'.at|
        ensures Reached(w'.at[v]) >= w'.at[u].ib - 1
      {
        assert Reached(w'.at[v]) >= Reached(w.at[v]);
      }
    }
  }

  lemma MovesNotBeyond(p: Search, f: Func, w: World, w': World, nb: int, t: nat)
    requires p.Valid() && NotBeyond(p, f, w) && Moves(w, w', nb, t)
    requires w'.at[t].ib > w.at[t].ib ==> NoneBefore(p, f, w'.at[t].ib)
    requires w'.at[t].Write? ==> w'.at[t].ib >= 0 && HasMatch(p, f, w'.at[t].ib)
    ensures NotBeyond(p, f, w')
  {
    hide HasMatch;
    if w'.found != -1 {
      if w.found != -1 {
        var u: nat :| u < |w.at| && MatchUpTo(p, f, w.at[u].ib);
        var c :| 0 <= c <= w.at[u].ib && HasMatch(p, f, c);
        assert MatchUpTo(p, f, w'.at[u].ib);
      } else {
        assert w.at[t].Write? && MatchUpTo(p, f, w'.at[t].ib);
      }
    }
  }

  lemma StepTogether(p: Search, f: Func, nb: int, w: World, w': World, t: nat)
    requires p.Valid() && Knows(p, f, nb, w) && Together(p, f, nb, w) && BarredStep(p, f, nb, w, w', t)
    ensures Together(p, f, nb, w')
  {
    hide HasMatch, Knows, Step, InStep, NotBeyond;
    OneThread(p, f, nb, w, w', t);
    FoundStays(p, f, nb, w, w', t);
    MovesInStep(w, w', nb, t);
    var ib := w.at[t].ib;
    if w'.at[t].ib > ib {
      NoneBeforeNext(p, f, nb, w, ib, t);
    }
    if w'.at[t].Write? {
      WriterHasMatch(p, f, nb, w, w', t);
    }
    MovesNotBeyond(p, f, w, w', nb, t);
  }

  lemma NoneBeforeNext(p: Search, f: Func, nb: int, w: World, ib: int, t: nat)
    requires p.Valid() && Knows(p, f, nb, w) && Together(p, f, nb, w)
    requires w.found == -1 && Arrived(w, ib) && t < |w.at| && w.at[t].ib == ib
    ensures NoneBefore(p, f, ib + 1)
  {
    hide HasMatch, Knows, InStep;
    if ib >= 0 {
      NothingHere(p, f, nb, w, ib);
    }
  }

  lemma FoundStays(p: Search, f: Func, nb: int, w: World, w': World, t: nat)
    requires p.Valid() && Knows(p, f, nb, w) && Step(p, f, nb, w, w', t)
    ensures w.found != -1 ==> w'.found != -1
  {
    MatchIsNotMissing(p, f);
    hide IsMatch;
    if w.at[t].Write? {
      assert ThreadKnows(p, f, nb, w.found, w.at[t], t);
    }
  }

  lemma BeginTogether(p: Search, f: Func, nb: int, run: seq<World>)
    requires p.Valid() && IsRun(p, f, nb, run)
    ensures Together(p, f, nb, run[0])
  {
    hide HasMatch, SomeStep, Search.Own;
    assert forall t | 0 <= t < |p.nbs| :: run[0].at[t] == Begin(p, t, nb);
    hide Search.BlockOf;
  }

  lemma {:induction false} RunTogether(p: Search, f: Func, nb: int, run: seq<World>, i: nat)
    requires p.Valid() && IsBarredRun(p, f, nb, run) && i < |run|
    ensures Together(p, f, nb, run[i])
  {
    hide Together, BarredStep, Knows;
    if i == 0 {
      BeginTogether(p, f, nb, run);
    } else {
      RunTogether(p, f, nb, run, i - 1);
      RunKnows(p, f, nb, run, i - 1);
      assert SomeBarredStep(p, f, nb, run[i - 1], run[i]);
      var t: nat :| BarredStep(p, f, nb, run[i - 1], run[i], t);
      StepTogether(p, f, nb, run[i - 1], run[i], t);
    }
  }

  /** If thread t is further than thread u, which has left, the first match is in the block t has come to. */
  lemma ApartNeeds(p: Search, f: Func, nb: int, w: World, t: nat, u: nat)
    requires p.Valid() && Together(p, f, nb, w) && t < |w.at| && u < |w.at| && w.at[u].Left? && w.at[t].ib > w.at[u].ib
    ensures t != u && w.at[t].ib >= 1 && w.at[t].ib == w.at[u].ib + 1 && FirstMatch(p, f, w.at[t].ib)
  {
    hide HasMatch;
    var ib := w.at[t].ib;
    assert Arrived(w, ib - 1) && Reached(w.at[u]) >= ib - 1;
    var v: nat :| v < |w.at| && MatchUpTo(p, f, w.at[v].ib);
    var c :| 0 <= c <= w.at[v].ib && HasMatch(p, f, c);
    assert Arrived(w, w.at[v].ib - 1) && Reached(w.at[u]) >= w.at[v].ib - 1;
    assert NoneBefore(p, f, ib) && c == ib;
  }

  /** One step more. */
  lemma Longer(p: Search, f: Func, nb: int, run: seq<World>, w': World, t: nat) returns (run': seq<World>)
    requires p.Valid() && IsBarredRun(p, f, nb, run) && |run| > 0 && BarredStep(p, f, nb, Last(run), w', t)
    ensures IsBarredRun(p, f, nb, run') && |run'| > 0 && Last(run') == w'
  {
    run' := run + [w'];
    hide Step, Search.Own, Begin;
    forall i, j | 0 <= i && j == i + 1 && j < |run'|
      ensures SomeStep(p, f, nb, run'[i], run'[j]) && SomeBarredStep(p, f, nb, run'[i], run'[j])
    {
      if j == |run| {
        assert run'[i] == Last(run) && run'[j] == w';
      } else {
        assert SomeBarredStep(p, f, nb, run[i], run[j]) && SomeStep(p, f, nb, run[i], run[j]);
      }
    }
  }

  /** The test of one index. */
  lemma TestStep(p: Search, f: Func, nb: int, w: World, t: nat)
    requires p.Valid() && |w.at| == |p.nbs| && t < |p.nbs| && w.at[t].Test? && w.at[t].ib >= 0
    requires InBlock(p, t, w.at[t].ib, w.at[t].j)
    ensures var ib, j := w.at[t].ib, w.at[t].j;
            && 0 <= j < p.n.Size()
            && BarredStep(p, f, nb, w, Moved(w, t, if f(p.Cell(j)) then Write(ib, p.Cell(j)) else Test(ib, j + 1)), t)
  {
    hide WorkSharing.Share;
    var ib, j := w.at[t].ib, w.at[t].j;
    NextBlock(p, t, ib);
    PartInRange(p, t, j);
    SizePositive(p.n);
    AddrOfStructIndex(p.n, j);
  }

  /** A thread works through the rest of its block: to its end if there is no match, to a write otherwise. */
  lemma {:induction false} Work(p: Search, f: Func, nb: int, run: seq<World>, t: nat) returns (run': seq<World>)
    requires p.Valid() && IsBarredRun(p, f, nb, run) && |run| > 0 && |Last(run).at| == |p.nbs| && t < |p.nbs|
    requires Last(run).at[t].Test? && Last(run).at[t].ib >= 0
    requires Last(run).at[t].j >= p.BlockOf(t, Last(run).at[t].ib).lo
    ensures IsBarredRun(p, f, nb, run') && |run'| > 0
    ensures var ib := Last(run).at[t].ib;
            if exists q | 0 <= q < p.n.Size() :: Ahead(p, t, ib, Last(run).at[t].j, q) && f(p.Cell(q))
            then exists v :: Last(run') == Moved(Last(run), t, Write(ib, v)) && IsMatch(p, f, v)
            else Last(run') == Moved(Last(run), t, EndOf(ib))
    decreases p.BlockOf(t, Last(run).at[t].ib).hi - Last(run).at[t].j
  {
    hide Search.Cell, Search.BlockOf, IsBarredRun, Interior;
    var w := Last(run);
    var ib, j := w.at[t].ib, w.at[t].j;
    if j >= p.BlockOf(t, ib).hi {
      run' := Longer(p, f, nb, run, Moved(w, t, EndOf(ib)), t);
    } else {
      TestStep(p, f, nb, w, t);
      CellsAreInterior(p, j);
      hide Step;
      if f(p.Cell(j)) {
        assert Ahead(p, t, ib, j, j);
        run' := Longer(p, f, nb, run, Moved(w, t, Write(ib, p.Cell(j))), t);
      } else {
        var next := Longer(p, f, nb, run, Moved(w, t, Test(ib, j + 1)), t);
        run' := Work(p, f, nb, next, t);
        assert forall q | 0 <= q < p.n.Size() ::
            Ahead(p, t, ib, j, q) && f(p.Cell(q)) <==> Ahead(p, t, ib, j + 1, q) && f(p.Cell(q));
        assert forall s :: Moved(Moved(w, t, Test(ib, j + 1)), t, s) == Moved(w, t, s);
      }
    }
  }

  predicate Ahead(p: Search, t: nat, ib: int, j: int, q: int)
    requires t < |p.nbs|
  {
    j <= q < p.BlockOf(t, ib).hi
  }

  /** The first k threads are at the end of block ib, the others at its start. */
  function Finishing(p: Search, ib: int, k: nat): (w: World)
    ensures |w.at| == |p.nbs|
  {
    World(-1, seq(|p.nbs|, (t: nat) requires t < |p.nbs| => if t < k then EndOf(ib) else Start(p, t, ib)))
  }

  /** The first k threads have passed the barrier behind block ib, the others have come to it. */
  function Passing(p: Search, ib: int, k: nat): (w: World)
    ensures |w.at| == |p.nbs|
  {
    World(-1, seq(|p.nbs|, (t: nat) requires t < |p.nbs| => if t < k then Start(p, t, ib + 1) else EndOf(ib)))
  }

  lemma {:induction false} AllFinish(p: Search, f: Func, nb: int, run: seq<World>, ib: nat, k: nat)
    returns (run': seq<World>)
    requires p.Valid() && IsBarredRun(p, f, nb, run) && |run| > 0 && !HasMatch(p, f, ib) && k <= |p.nbs|
    requires Last(run) == Finishing(p, ib, k)
    ensures IsBarredRun(p, f, nb, run') && |run'| > 0 && Last(run') == Passing(p, ib, 0)
    decreases |p.nbs| - k
  {
    hide Search.Cell, Search.BlockOf, IsBarredRun;
    if k == |p.nbs| {
      run' := run;
      assert Finishing(p, ib, k).at == Passing(p, ib, 0).at;
    } else {
      var next := Work(p, f, nb, run, k);
      NothingAhead(p, f, k, ib);
      assert Last(next).at == Finishing(p, ib, k + 1).at;
      run' := AllFinish(p, f, nb, next, ib, k + 1);
    }
  }

  lemma NothingAhead(p: Search, f: Func, t: nat, ib: nat)
    requires p.Valid() && t < |p.nbs| && !HasMatch(p, f, ib)
    ensures !exists q | 0 <= q < p.n.Size() :: Ahead(p, t, ib, p.BlockOf(t, ib).lo, q) && f(p.Cell(q))
  {
    hide Search.Cell, Search.BlockOf;
    forall q | 0 <= q < p.n.Size() && Ahead(p, t, ib, p.BlockOf(t, ib).lo, q)
      ensures !f(p.Cell(q))
    {
      assert InBlock(p, t, ib, q);
    }
  }

  lemma {:induction false} AllPass(p: Search, f: Func, nb: int, run: seq<World>, ib: nat, k: nat)
    returns (run': seq<World>)
    requires p.Valid() && IsBarredRun(p, f, nb, run) && |run| > 0 && ib < nb - 1 && k <= |p.nbs|
    requires Last(run) == Passing(p, ib, k)
    ensures IsBarredRun(p, f, nb, run') && |run'| > 0 && Last(run') == Finishing(p, ib + 1, 0)
    decreases |p.nbs| - k
  {
    hide Search.BlockOf, IsBarredRun;
    if k == |p.nbs| {
      run' := run;
      assert Passing(p, ib, k).at == Finishing(p, ib + 1, 0).at;
    } else {
      PassOne(p, f, nb, ib, k);
      var next := Longer(p, f, nb, run, Passing(p, ib, k + 1), k);
      run' := AllPass(p, f, nb, next, ib, k + 1);
    }
  }

  lemma PassOne(p: Search, f: Func, nb: int, ib: nat, k: nat)
    requires p.Valid() && ib < nb - 1 && k < |p.nbs|
    ensures BarredStep(p, f, nb, Passing(p, ib, k), Passing(p, ib, k + 1), k)
  {
    hide Search.BlockOf;
    var w, w' := Passing(p, ib, k), Passing(p, ib, k + 1);
    assert w'.at == w.at[k := Start(p, k, ib + 1)];
  }

  /** All threads together come to the start of block b if there is no match before it. */
  lemma {:induction false} AllReach(p: Search, f: Func, nb: int, b: nat) returns (run: seq<World>)
    requires p.Valid() && (forall t | 0 <= t < |p.nbs| :: nb >= p.Own(t)) && NoneBefore(p, f, b) && b < nb
    ensures IsBarredRun(p, f, nb, run) && |run| > 0 && Last(run) == Finishing(p, b, 0)
  {
    hide Search.Own, Search.BlockOf, HasMatch;
    if b == 0 {
      run := [Finishing(p, 0, 0)];
      assert Finishing(p, 0, 0).at == seq(|p.nbs|, (t: nat) requires t < |p.nbs| => Begin(p, t, nb));
    } else {
      run := AllReach(p, f, nb, b - 1);
      hide IsBarredRun;
      run := AllFinish(p, f, nb, run, b - 1, 0);
      run := AllPass(p, f, nb, run, b - 1, 0);
    }
  }

  lemma Later(p: Search, t: nat, ib: int, jb: int)
    requires p.Valid() && t < |p.nbs| && 0 <= ib <= jb
    ensures p.BlockOf(t, ib).lo <= p.BlockOf(t, jb).lo
  {
    MulLe(ib, jb, p.nbs[t]);
  }

  /** A block with a match is one of the blocks the team has agreed on. */
  lemma MatchIsAgreed(p: Search, f: Func, nb: int, b: nat)
    requires p.Valid() && (forall t | 0 <= t < |p.nbs| :: nb >= p.Own(t)) && HasMatch(p, f, b)
    ensures b < nb
  {
    hide WorkSharing.Share, Search.Cell;
    var t: nat, q :| t < |p.nbs| && 0 <= q < p.n.Size() && InBlock(p, t, b, q) && f(p.Cell(q));
    LastBlock(p, nb, t);
    NextBlock(p, t, b);
    assert nb >= 0;
    if nb <= b {
      Later(p, t, nb, b);
    }
  }

  /** The steps of the one thread that goes on into block b and finds a match there. */
  lemma FindAlone(p: Search, f: Func, nb: int, run: seq<World>, b: nat, t: nat) returns (run': seq<World>)
    requires p.Valid() && IsBarredRun(p, f, nb, run) && |run| > 0 && t < |p.nbs| && 1 <= b < nb
    requires Last(run) == Passing(p, b - 1, 0)
    requires exists q | 0 <= q < p.n.Size() :: InBlock(p, t, b, q) && f(p.Cell(q))
    ensures IsBarredRun(p, f, nb, run') && |run'| > 0 && Last(run').found != -1
    ensures Last(run').at == Passing(p, b - 1, 0).at[t := EndOf(b)]
  {
    hide Search.BlockOf, Search.Cell, IsBarredRun, Interior;
    var w := Passing(p, b - 1, 0);
    var one := Longer(p, f, nb, run, Moved(w, t, Start(p, t, b)), t);
    var two := Work(p, f, nb, one, t);
    var q :| 0 <= q < p.n.Size() && InBlock(p, t, b, q) && f(p.Cell(q));
    assert Ahead(p, t, b, p.BlockOf(t, b).lo, q);
    var v :| Last(two) == Moved(Last(one), t, Write(b, v)) && IsMatch(p, f, v);
    MatchIsNotMissing(p, f);
    run' := Longer(p, f, nb, two, World(v, Last(two).at[t := EndOf(b)]), t);
  }

  /** If the first match is in block b >= 1, two threads can come apart, in blocks b - 1 and b. */
  lemma GoApart(p: Search, f: Func, nb: int, b: nat) returns (run: seq<World>, t: nat, u: nat)
    requires p.Valid() && (forall t | 0 <= t < |p.nbs| :: nb >= p.Own(t))
    requires |p.nbs| >= 2 && b >= 1 && FirstMatch(p, f, b)
    ensures b < nb && IsBarredRun(p, f, nb, run) && |run| > 0
    ensures t < |p.nbs| == |Last(run).at| && u < |p.nbs|
    ensures Last(run).at[t] == EndOf(b) && Last(run).at[u] == Left(b - 1)
  {
    hide Search.Own, Search.BlockOf, Search.Cell, IsBarredRun;
    MatchIsAgreed(p, f, nb, b);
    var q;
    t, q :| t < |p.nbs| && 0 <= q < p.n.Size() && InBlock(p, t, b, q) && f(p.Cell(q));
    hide HasMatch;
    u := if t == 0 then 1 else 0;
    run := AllReach(p, f, nb, b - 1);
    run := AllFinish(p, f, nb, run, b - 1, 0);
    run := FindAlone(p, f, nb, run, b, t);
    run := Longer(p, f, nb, run, Moved(Last(run), u, Left(b - 1)), u);
  }

  /** Some run that respects the barriers comes to a moment of the given kind. */
  ghost predicate CanComeTo(p: Search, f: Func, nb: int, kind: World -> bool)
    requires p.Valid()
  {
    exists run :: IsBarredRun(p, f, nb, run) && |run| > 0 && kind(Last(run))
  }

  /**
   Threads can leave the loop behind different blocks exactly when there are at least two of them and
   the first matching cell is in no thread's first block.
   */
  lemma LeaveApartExactly(p: Search, f: Func, nb: int)
    requires p.Valid() && forall t | 0 <= t < |p.nbs| :: nb >= p.Own(t)
    ensures CanComeTo(p, f, nb, w => Apart(w)) <==> |p.nbs| >= 2 && exists b :: b >= 1 && FirstMatch(p, f, b)
  {
    hide Search.Own, HasMatch, FirstMatch, IsBarredRun, Together;
    var kind: World -> bool := w => Apart(w);
    if CanComeTo(p, f, nb, kind) {
      var run :| IsBarredRun(p, f, nb, run) && |run| > 0 && kind(Last(run));
      var w := Last(run);
      var t, u :| 0 <= t < |w.at| && 0 <= u < |w.at| && w.at[u].Left? && w.at[t].ib > w.at[u].ib;
      RunTogether(p, f, nb, run, |run| - 1);
      ApartNeeds(p, f, nb, w, t, u);
      TogetherSize(p, f, nb, w);
    }
    if |p.nbs| >= 2 && exists b :: b >= 1 && FirstMatch(p, f, b) {
      var b :| b >= 1 && FirstMatch(p, f, b);
      var run, t, u := GoApart(p, f, nb, b);
      assert Apart(Last(run)) && kind(Last(run));
    }
  }

  lemma TogetherSize(p: Search, f: Func, nb: int, w: World)
    requires p.Valid() && Together(p, f, nb, w)
    ensures |w.at| == |p.nbs|
  {
  }

  /**
   One of them then waits for ever exactly when that first matching block is not the last block of the
   loop.
   */
  lemma StrandedExactly(p: Search, f: Func, nb: int)
    requires p.Valid() && forall t | 0 <= t < |p.nbs| :: nb >= p.Own(t)
    ensures CanComeTo(p, f, nb, w => Stranded(w, nb)) <==>
            |p.nbs| >= 2 && exists b :: 1 <= b < nb - 1 && FirstMatch(p, f, b)
  {
    hide Search.Own, HasMatch, FirstMatch, IsBarredRun, Together;
    var kind: World -> bool := w => Stranded(w, nb);
    if CanComeTo(p, f, nb, kind) {
      var run :| IsBarredRun(p, f, nb, run) && |run| > 0 && kind(Last(run));
      var w := Last(run);
      var t: nat :| WaitsInVain(w, nb, t);
      var u :| 0 <= u < |w.at| && w.at[u].Left? && w.at[u].ib < w.at[t].ib;
      RunTogether(p, f, nb, run, |run| - 1);
      ApartNeeds(p, f, nb, w, t, u);
      TogetherSize(p, f, nb, w);
    }
    if |p.nbs| >= 2 && exists b :: 1 <= b < nb - 1 && FirstMatch(p, f, b) {
      var b :| 1 <= b < nb - 1 && FirstMatch(p, f, b);
      var run, t, u := GoApart(p, f, nb, b);
      assert WaitsInVain(Last(run), nb, t) && kind(Last(run));
    }
  }

  /** Who waits in vain never moves again. */
  lemma {:induction false} WaitsForEver(p: Search, f: Func, nb: int, run: seq<World>, i: nat, j: nat, t: nat)
    requires p.Valid() && IsBarredRun(p, f, nb, run) && i <= j < |run| && WaitsInVain(run[i], nb, t)
    ensures WaitsInVain(run[j], nb, t) && run[j].at[t] == run[i].at[t]
    decreases j - i
  {
    hide IsRun;
    if i < j {
      WaitsForEver(p, f, nb, run, i, j - 1, t);
      assert SomeBarredStep(p, f, nb, run[j - 1], run[j]);
      var v: nat :| BarredStep(p, f, nb, run[j - 1], run[j], v);
      OneThread(p, f, nb, run[j - 1], run[j], v);
      hide Step;
      var u :| 0 <= u < |run[j - 1].at| && run[j - 1].at[u].Left? && run[j - 1].at[u].ib < run[j - 1].at[t].ib;
      StaysLeft(p, f, nb, run[j - 1], run[j], v, u);
    }
  }

  lemma StaysLeft(p: Search, f: Func, nb: int, w: World, w': World, v: nat, u: nat)
    requires p.Valid() && Step(p, f, nb, w, w', v) && u < |w.at| && w.at[u].Left?
    ensures |w'.at| == |w.at| && w'.at[u] == w.at[u]
  {
  }

  /** The thread at the earliest barrier. */
  lemma {:induction false} Earliest(at: seq<Thread>, n: nat) returns (t: nat)
    requires n <= |at| && exists u | 0 <= u < n :: at[u].EndOf?
    ensures t < n && at[t].EndOf? && forall u | 0 <= u < n :: at[u].EndOf? ==> at[t].ib <= at[u].ib
  {
    if exists u | 0 <= u < n - 1 :: at[u].EndOf? {
      t := Earliest(at, n - 1);
      if at[n - 1].EndOf? && at[n - 1].ib < at[t].ib {
        t := n - 1;
      }
    } else {
      t := n - 1;
    }
  }

  /** Apart from that the barriers lock nobody in: unless all have left or one waits in vain, a thread can act. */
  lemma SomebodyMoves(p: Search, f: Func, nb: int, w: World) returns (w': World)
    requires p.Valid() && |w.at| == |p.nbs| && !Stranded(w, nb) && exists t | 0 <= t < |w.at| :: !w.at[t].Left?
    ensures SomeBarredStep(p, f, nb, w, w')
  {
    hide Search.BlockOf;
    var t: nat;
    if u: nat :| u < |w.at| && (w.at[u].Test? || w.at[u].Write?) {
      t := u;
    } else {
      t := Earliest(w.at, |w.at|);
      assert !WaitsInVain(w, nb, t);
    }
    w' := Acted(p, f, nb, w, t);
    assert BarredStep(p, f, nb, w, w', t);
  }

  /** Two threads with three blocks of one cell each; cell 4 is the one to be found. */
  const TWO := Search(Dims(6, 1, 1), Index(0, 0, 0), Dims(6, 1, 1), [1, 1])

  function IsFour(jj: int): bool {
    jj == 4
  }

  lemma TwoThreads()
    ensures TWO.Valid() && TWO.Part(0) == Range(0, 3) && TWO.Part(1) == Range(3, 6)
    ensures TWO.Own(0) == 3 == TWO.Own(1)
    ensures forall ib :: TWO.BlockOf(0, ib) == Range(ib, if ib + 1 > 3 then 3 else ib + 1)
    ensures forall ib :: TWO.BlockOf(1, ib) == Range(3 + ib, if 4 + ib > 6 then 6 else 4 + ib)
  {
  }

  lemma OneRow(j: int)
    requires 0 <= j < 6
    ensures StructIndexOf(j, TWO.n) == Some(Index(j, 0, 0)) && Addr(TWO.m, j, 0, 0) == j
  {
  }

  /** Who acts, and what the threads look like before the i-th action. */
  function Who(i: nat): nat {
    if i < 2 || i == 7 then 0 else 1
  }

  function Moment(i: nat): World {
    match i
    case 0 => World(-1, [Test(0, 0), Test(0, 3)])
    case 1 => World(-1, [Test(0, 1), Test(0, 3)])
    case 2 => World(-1, [EndOf(0), Test(0, 3)])
    case 3 => World(-1, [EndOf(0), Test(0, 4)])
    case 4 => World(-1, [EndOf(0), EndOf(0)])
    case 5 => World(-1, [EndOf(0), Test(1, 4)])
    case 6 => World(-1, [EndOf(0), Write(1, 4)])
    case 7 => World(4, [EndOf(0), EndOf(1)])
    case _ => World(4, [Left(0), EndOf(1)])
  }

  lemma MomentStep(i: nat)
    requires i < 8 && TWO.Valid()
    ensures BarredStep(TWO, IsFour, 3, Moment(i), Moment(i + 1), Who(i))
  {
    TwoThreads();
    hide Share, Search.BlockOf, Search.Own, Search.Part, StructIndexOf, Addr;
    OneRow(0);
    OneRow(3);
    OneRow(4);
    var t := Who(i);
    assert Moment(i + 1).at == Moment(i).at[t := Moment(i + 1).at[t]];
  }

  /**
   The read behind a barrier can already see what another thread writes in the next block, so a
   thread may leave while another goes on to a later barrier and waits there for it.
   */
  lemma ThreadsMayLeaveApart() returns (run: seq<World>)
    ensures TWO.Valid() && IsRun(TWO, IsFour, 3, run)
    ensures forall i, j | 0 <= i && j == i + 1 && j < |run| :: SomeBarredStep(TWO, IsFour, 3, run[i], run[j])
    ensures |run| > 0 && run[|run| - 1].at == [Left(0), EndOf(1)] && !Arrived(run[|run| - 1], 1)
  {
    MomentStart();
    run := seq(9, (i: nat) => Moment(i));
    hide Moment, Search.Own;
    forall i, j | 0 <= i && j == i + 1 && j < |run|
      ensures SomeStep(TWO, IsFour, 3, run[i], run[j])
      ensures SomeBarredStep(TWO, IsFour, 3, run[i], run[j])
    {
      hide Step;
      MomentStep(i);
    }
  }

  lemma MomentStart()
    ensures TWO.Valid() && TWO.Own(0) == 3 == TWO.Own(1)
    ensures Moment(0) == World(-1, seq(|TWO.nbs|, (t: nat) requires t < |TWO.nbs| => Begin(TWO, t, 3)))
    ensures Moment(8).at == [Left(0), EndOf(1)] && !Arrived(Moment(8), 1)
  {
    TwoThreads();
    hide Share, Search.BlockOf, Search.Own, Search.Part;
    assert Begin(TWO, 0, 3) == Test(0, 0) && Begin(TWO, 1, 3) == Test(0, 3);
    assert Moment(8).at[0] == Left(0);
  }
}
