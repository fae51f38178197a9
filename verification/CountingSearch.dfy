/**
 struct_domain_find_n_p_if (jupiter/common_util.h, 497-570): all threads count the cells that satisfy
 func in one shared number and stop looking once it has reached a bound.  As in ParallelSearch every
 interleaving of the atomic actions is considered.
 */
module CountingSearch {
  import opened Layout
  import opened WorkSharing
  import opened ParallelSearch

  /**
   Testing index j, about to count a match, about to look at the number, at the end of a block, or
   out of the loop.
   */
  datatype Counter = Probe(ib: int, j: int) | Bump(ib: int, j: int) | Look(ib: int, j: int) | Behind(ib: int) | Gone

  /** The shared number, the threads, and how many matches each has counted. */
  datatype Counting = Counting(found: int, at: seq<Counter>, counted: seq<nat>)

  function Enter(p: Search, t: nat, nb: int): Counter
    requires t < |p.nbs|
  {
    if nb > 0 then Probe(0, p.BlockOf(t, 0).lo) else Gone
  }

  /** One atomic action of thread t. */
  ghost predicate Action(p: Search, f: Func, nb: int, maxfind: int, w: Counting, w': Counting, t: nat)
    requires p.Valid()
  {
    && t < |w.at| == |p.nbs| == |w.counted|
    && match w.at[t]
       case Probe(ib, j) =>
         if j >= p.BlockOf(t, ib).hi then w' == w.(at := w.at[t := Behind(ib)])
         else
           var c := StructIndexOf(j, p.n);
           if c.None? then w' == w.(found := -1, at := w.at[t := Behind(ib)])
           else
             var jj := Addr(p.m, c.value.x + p.st.x, c.value.y + p.st.y, c.value.z + p.st.z);
             w' == w.(at := w.at[t := if f(jj) then Bump(ib, j) else Look(ib, j)])
       case Bump(ib, j) => w' == Counting(w.found + 1, w.at[t := Look(ib, j)], w.counted[t := w.counted[t] + 1])
       case Look(ib, j) => w' == w.(at := w.at[t := if w.found >= maxfind then Behind(ib) else Probe(ib, j + 1)])
       case Behind(ib) =>
         w' == w.(at := w.at[t := if ib < nb - 1 && w.found >= 0 then Probe(ib + 1, p.BlockOf(t, ib + 1).lo) else Gone])
       case Gone => false
  }

  ghost predicate SomeAction(p: Search, f: Func, nb: int, maxfind: int, w: Counting, w': Counting)
    requires p.Valid()
  {
    exists t: nat :: Action(p, f, nb, maxfind, w, w', t)
  }

  ghost predicate IsCount(p: Search, f: Func, nb: int, maxfind: int, run: seq<Counting>)
    requires p.Valid()
  {
    && (forall t | 0 <= t < |p.nbs| :: nb >= p.Own(t))
    && |run| > 0
    && run[0] == Counting(0, seq(|p.nbs|, (t: nat) requires t < |p.nbs| => Enter(p, t, nb)), seq(|p.nbs|, t => 0))
    && (forall i, j | 0 <= i && j == i + 1 && j < |run| :: SomeAction(p, f, nb, maxfind, run[i], run[j]))
  }

  /** How many of the loop indices lo .. hi - 1 match. */
  ghost function Matches(p: Search, f: Func, lo: int, hi: int): (k: nat)
    requires 0 <= lo && hi <= p.n.Size()
    decreases hi - lo
  {
    if hi <= lo then 0 else Matches(p, f, lo, hi - 1) + if f(p.Cell(hi - 1)) then 1 else 0
  }

  /** The matches among all interior cells. */
  ghost function Total(p: Search, f: Func): nat {
    Matches(p, f, 0, p.n.Size())
  }

  lemma {:induction false} MatchesSplit(p: Search, f: Func, lo: int, mid: int, hi: int)
    requires 0 <= lo <= mid <= hi <= p.n.Size()
    ensures Matches(p, f, lo, hi) == Matches(p, f, lo, mid) + Matches(p, f, mid, hi)
    decreases hi - mid
  {
    hide Search.Cell;
    if mid < hi {
      MatchesSplit(p, f, lo, mid, hi - 1);
    }
  }

  /** The index up to which a thread has gone, cut off at the end of its share. */
  function Cursor(p: Search, t: nat, s: Counter): int
    requires t < |p.nbs|
  {
    var r := p.Part(t);
    var j := match s
      case Probe(ib, j) => j
      case Bump(ib, j) => j
      case Look(ib, j) => j + 1
      case Behind(ib) => p.BlockOf(t, ib + 1).lo
      case Gone => r.hi;
    if j > r.hi then r.hi else j
  }

  ghost predicate InPart(p: Search)
    requires p.Valid()
  {
    forall t | 0 <= t < |p.nbs| :: 0 <= p.Part(t).lo <= p.Part(t).hi <= p.n.Size()
  }

  lemma PartsInPart(p: Search)
    requires p.Valid()
    ensures InPart(p)
  {
    forall t | 0 <= t < |p.nbs|
      ensures 0 <= p.Part(t).lo <= p.Part(t).hi <= p.n.Size()
    {
      if p.n.Size() > 0 {
        ShareStarts(0, p.n.Size(), |p.nbs|, t);
        ShareEnds(0, p.n.Size(), |p.nbs|, t);
        SharesAreEven(0, p.n.Size(), |p.nbs|, t, t);
      }
    }
  }

  /** Thread t has counted no more matches than it has passed, and all of them unless the bound was reached. */
  ghost predicate CountsRight(p: Search, f: Func, nb: int, maxfind: int, found: int, s: Counter, counted: nat, t: nat)
    requires p.Valid() && InPart(p) && t < |p.nbs|
  {
    && (match s
        case Probe(ib, j) => 0 <= ib < nb && p.BlockOf(t, ib).lo <= j <= p.BlockOf(t, ib + 1).lo
        case Bump(ib, j) => 0 <= ib < nb && p.BlockOf(t, ib).lo <= j < p.BlockOf(t, ib).hi && f(p.Cell(j))
        case Look(ib, j) => 0 <= ib < nb && p.BlockOf(t, ib).lo <= j < p.BlockOf(t, ib).hi
        case Behind(ib) => 0 <= ib < nb
        case Gone => true)
    && p.Part(t).lo <= Cursor(p, t, s)
    && counted <= Matches(p, f, p.Part(t).lo, Cursor(p, t, s))
    && (found < maxfind ==> counted == Matches(p, f, p.Part(t).lo, Cursor(p, t, s)))
  }

  function Sum(c: seq<nat>): nat {
    if |c| == 0 then 0 else Sum(c[..|c| - 1]) + c[|c| - 1]
  }

  ghost predicate AllCountRight(p: Search, f: Func, nb: int, maxfind: int, w: Counting)
    requires p.Valid() && InPart(p)
  {
    && |w.at| == |w.counted| == |p.nbs| && w.found == Sum(w.counted)
    && forall t | 0 <= t < |p.nbs| :: CountsRight(p, f, nb, maxfind, w.found, w.at[t], w.counted[t], t)
  }

  lemma {:induction false} SumUpdated(c: seq<nat>, t: nat)
    requires t < |c|
    ensures Sum(c[t := c[t] + 1]) == Sum(c) + 1
  {
    var d := c[t := c[t] + 1];
    if t < |c| - 1 {
      SumUpdated(c[..|c| - 1], t);
      assert d[..|c| - 1] == c[..|c| - 1][t := c[t] + 1];
    } else {
      assert d[..|c| - 1] == c[..|c| - 1];
    }
  }

  lemma OthersStillRight(p: Search, f: Func, nb: int, maxfind: int, found: int, found': int, s: Counter, counted: nat,
                         t: nat)
    requires p.Valid() && InPart(p) && t < |p.nbs| && found <= found'
    requires CountsRight(p, f, nb, maxfind, found, s, counted, t)
    ensures CountsRight(p, f, nb, maxfind, found', s, counted, t)
  {
    hide Share, Matches, Cursor;
  }

  lemma ProbeRight(p: Search, f: Func, nb: int, maxfind: int, w: Counting, w': Counting, t: nat)
    requires p.Valid() && InPart(p) && AllCountRight(p, f, nb, maxfind, w) && Action(p, f, nb, maxfind, w, w', t)
    requires forall u | 0 <= u < |p.nbs| :: nb >= p.Own(u)
    requires w.at[t].Probe?
    ensures CountsRight(p, f, nb, maxfind, w'.found, w'.at[t], w'.counted[t], t)
    ensures w'.found == w.found
  {
    hide Share, Matches, Search.Cell, StructIndexOf, Search.BlockOf, Search.Part, Search.Own, Addr;
    assert CountsRight(p, f, nb, maxfind, w.found, w.at[t], w.counted[t], t);
    var r := p.Part(t);
    var ib, j := w.at[t].ib, w.at[t].j;
    NextBlock(p, t, ib);
    if j < p.BlockOf(t, ib).hi {
      TestedCell(p, t, j);
      GrowMatches(p, f, r.lo, j);
    } else {
      SkipToNext(p, f, nb, maxfind, w.found, w.counted[t], t, ib, j);
    }
  }

  lemma BumpRight(p: Search, f: Func, nb: int, maxfind: int, w: Counting, w': Counting, t: nat)
    requires p.Valid() && InPart(p) && AllCountRight(p, f, nb, maxfind, w) && Action(p, f, nb, maxfind, w, w', t)
    requires forall u | 0 <= u < |p.nbs| :: nb >= p.Own(u)
    requires w.at[t].Bump?
    ensures CountsRight(p, f, nb, maxfind, w'.found, w'.at[t], w'.counted[t], t)
    ensures w'.found == w.found + 1
  {
    hide Share, Matches, Search.Cell, StructIndexOf, Search.BlockOf, Search.Part, Search.Own, Addr;
    assert CountsRight(p, f, nb, maxfind, w.found, w.at[t], w.counted[t], t);
    var r := p.Part(t);
    var ib, j := w.at[t].ib, w.at[t].j;
    NextBlock(p, t, ib);
    GrowMatches(p, f, r.lo, j);
  }

  lemma LookRight(p: Search, f: Func, nb: int, maxfind: int, w: Counting, w': Counting, t: nat)
    requires p.Valid() && InPart(p) && AllCountRight(p, f, nb, maxfind, w) && Action(p, f, nb, maxfind, w, w', t)
    requires forall u | 0 <= u < |p.nbs| :: nb >= p.Own(u)
    requires w.at[t].Look?
    ensures CountsRight(p, f, nb, maxfind, w'.found, w'.at[t], w'.counted[t], t)
    ensures w'.found == w.found
  {
    hide Share, Matches, Search.Cell, StructIndexOf, Search.BlockOf, Search.Part, Search.Own, Addr;
    assert CountsRight(p, f, nb, maxfind, w.found, w.at[t], w.counted[t], t);
    var r := p.Part(t);
    var ib, j := w.at[t].ib, w.at[t].j;
    NextBlock(p, t, ib);
    if w.found >= maxfind {
      SkipToNext(p, f, nb, maxfind, w.found, w.counted[t], t, ib, j + 1);
    }
  }

  lemma BehindRight(p: Search, f: Func, nb: int, maxfind: int, w: Counting, w': Counting, t: nat)
    requires p.Valid() && InPart(p) && AllCountRight(p, f, nb, maxfind, w) && Action(p, f, nb, maxfind, w, w', t)
    requires forall u | 0 <= u < |p.nbs| :: nb >= p.Own(u)
    requires w.at[t].Behind?
    ensures CountsRight(p, f, nb, maxfind, w'.found, w'.at[t], w'.counted[t], t)
    ensures w'.found == w.found
  {
    hide Share, Matches, Search.Cell, StructIndexOf, Search.BlockOf, Search.Part, Search.Own, Addr;
    assert CountsRight(p, f, nb, maxfind, w.found, w.at[t], w.counted[t], t);
    var r := p.Part(t);
    var ib := w.at[t].ib;
    NextBlock(p, t, ib);
    NextBlock(p, t, ib + 1);
    LastBlock(p, nb, t);
  }

  lemma ActorStillRight(p: Search, f: Func, nb: int, maxfind: int, w: Counting, w': Counting, t: nat)
    requires p.Valid() && InPart(p) && AllCountRight(p, f, nb, maxfind, w) && Action(p, f, nb, maxfind, w, w', t)
    requires forall u | 0 <= u < |p.nbs| :: nb >= p.Own(u)
    ensures CountsRight(p, f, nb, maxfind, w'.found, w'.at[t], w'.counted[t], t)
    ensures w'.found == w.found + (if w.at[t].Bump? then 1 else 0)
  {
    match w.at[t]
    case Probe(ib, j) => ProbeRight(p, f, nb, maxfind, w, w', t);
    case Bump(ib, j) => BumpRight(p, f, nb, maxfind, w, w', t);
    case Look(ib, j) => LookRight(p, f, nb, maxfind, w, w', t);
    case Behind(ib) => BehindRight(p, f, nb, maxfind, w, w', t);
  }

  lemma TestedCell(p: Search, t: nat, j: int)
    requires p.Valid() && InPart(p) && t < |p.nbs| && p.Part(t).lo <= j < p.Part(t).hi
    ensures StructIndexOf(j, p.n).Some? && 0 <= j < p.n.Size()
    ensures var c := StructIndexOf(j, p.n).value; Addr(p.m, c.x + p.st.x, c.y + p.st.y, c.z + p.st.z) == p.Cell(j)
  {
    hide Share;
    SizePositive(p.n);
    AddrOfStructIndex(p.n, j);
    var c := StructIndexOf(j, p.n).value;
    StructIndexOfAddr(p.n, c.x, c.y, c.z);
    var d := CellAt(p.n, j);
    StructIndexOfAddr(p.n, d.x, d.y, d.z);
  }

  lemma GrowMatches(p: Search, f: Func, lo: int, j: int)
    requires 0 <= lo <= j < p.n.Size()
    ensures Matches(p, f, lo, j + 1) == Matches(p, f, lo, j) + if f(p.Cell(j)) then 1 else 0
  {
    hide Search.Cell;
  }

  /** Leaving a block at j: what lies between counts as passed. */
  lemma SkipToNext(p: Search, f: Func, nb: int, maxfind: int, found: int, counted: nat, t: nat, ib: int, j: int)
    requires p.Valid() && InPart(p) && t < |p.nbs| && 0 <= ib < nb && p.Part(t).lo <= j
    requires var r := p.Part(t); var k := if j > r.hi then r.hi else j;
             counted <= Matches(p, f, r.lo, k) && (found < maxfind ==> counted == Matches(p, f, r.lo, k))
    requires found >= maxfind || j >= p.BlockOf(t, ib).hi
    requires j <= p.BlockOf(t, ib + 1).lo
    ensures CountsRight(p, f, nb, maxfind, found, Behind(ib), counted, t)
  {
    hide Share, Matches, Search.BlockOf, Search.Part;
    NextBlock(p, t, ib);
    var r := p.Part(t);
    var k := if j > r.hi then r.hi else j;
    MatchesSplit(p, f, r.lo, k, Cursor(p, t, Behind(ib)));
  }

  lemma ActionKeeps(p: Search, f: Func, nb: int, maxfind: int, w: Counting, w': Counting, t: nat)
    requires p.Valid() && InPart(p) && AllCountRight(p, f, nb, maxfind, w) && Action(p, f, nb, maxfind, w, w', t)
    requires forall u | 0 <= u < |p.nbs| :: nb >= p.Own(u)
    ensures AllCountRight(p, f, nb, maxfind, w')
  {
    ActorStillRight(p, f, nb, maxfind, w, w', t);
    OnlyActorMoves(p, f, nb, maxfind, w, w', t);
    hide CountsRight, Action, Search.Own, InPart;
    forall u | 0 <= u < |p.nbs|
      ensures CountsRight(p, f, nb, maxfind, w'.found, w'.at[u], w'.counted[u], u)
    {
      if u != t {
        OthersStillRight(p, f, nb, maxfind, w.found, w'.found, w.at[u], w.counted[u], u);
      }
    }
  }

  /** An action changes its thread alone, and the shared number by what the thread counts. */
  lemma OnlyActorMoves(p: Search, f: Func, nb: int, maxfind: int, w: Counting, w': Counting, t: nat)
    requires p.Valid() && InPart(p) && AllCountRight(p, f, nb, maxfind, w) && Action(p, f, nb, maxfind, w, w', t)
    requires w'.found == w.found + (if w.at[t].Bump? then 1 else 0)
    ensures |w'.at| == |w'.counted| == |p.nbs| && w'.found == Sum(w'.counted)
    ensures forall u | 0 <= u < |p.nbs| && u != t :: w'.at[u] == w.at[u] && w'.counted[u] == w.counted[u]
  {
    hide CountsRight, StructIndexOf, Search.BlockOf, Search.Part, Search.Own, Addr, InPart, Sum;
    SumUpdated(w.counted, t);
  }

  lemma EnterCounts(p: Search, f: Func, nb: int, maxfind: int, run: seq<Counting>)
    requires p.Valid() && InPart(p) && IsCount(p, f, nb, maxfind, run)
    ensures AllCountRight(p, f, nb, maxfind, run[0])
  {
    hide Share, Search.Cell;
    NothingCounted(run[0].counted);
    forall t | 0 <= t < |p.nbs|
      ensures CountsRight(p, f, nb, maxfind, 0, run[0].at[t], 0, t)
    {
      NextBlock(p, t, 0);
      LastBlock(p, nb, t);
    }
  }

  lemma {:induction false} NothingCounted(c: seq<nat>)
    requires forall t | 0 <= t < |c| :: c[t] == 0
    ensures Sum(c) == 0
  {
    if |c| > 0 {
      NothingCounted(c[..|c| - 1]);
    }
  }

  lemma {:induction false} RunCounts(p: Search, f: Func, nb: int, maxfind: int, run: seq<Counting>, i: nat)
    requires p.Valid() && InPart(p) && IsCount(p, f, nb, maxfind, run) && i < |run|
    ensures AllCountRight(p, f, nb, maxfind, run[i])
  {
    hide AllCountRight, Action, InPart;
    if i == 0 {
      EnterCounts(p, f, nb, maxfind, run);
    } else {
      RunCounts(p, f, nb, maxfind, run, i - 1);
      assert SomeAction(p, f, nb, maxfind, run[i - 1], run[i]);
      var t: nat :| Action(p, f, nb, maxfind, run[i - 1], run[i], t);
      ActionKeeps(p, f, nb, maxfind, run[i - 1], run[i], t);
    }
  }

  /** What the first m threads have counted against what their shares hold. */
  lemma {:induction false} SharesAddUp(p: Search, f: Func, c: seq<nat>, m: nat)
    requires p.Valid() && InPart(p) && |c| == |p.nbs| && m <= |c|
    requires p.n.Size() > 0
    requires forall t | 0 <= t < |c| :: c[t] <= Matches(p, f, p.Part(t).lo, p.Part(t).hi)
    ensures var end := if m == 0 then 0 else p.Part(m - 1).hi;
            0 <= end <= p.n.Size() && Sum(c[..m]) <= Matches(p, f, 0, end)
    ensures (forall t | 0 <= t < |c| :: c[t] == Matches(p, f, p.Part(t).lo, p.Part(t).hi)) ==>
              Sum(c[..m]) == Matches(p, f, 0, if m == 0 then 0 else p.Part(m - 1).hi)
  {
    hide Share, Search.Cell;
    if m > 0 {
      SharesAddUp(p, f, c, m - 1);
      assert c[..m][..m - 1] == c[..m - 1];
      SharesJoin(0, p.n.Size(), |p.nbs|, m - 1);
      var r := p.Part(m - 1);
      if m > 1 {
        SharesJoin(0, p.n.Size(), |p.nbs|, m - 2);
      }
      MatchesSplit(p, f, 0, r.lo, r.hi);
    }
  }

  /** When all threads are out of the loop: at least the smaller of bound and total, at most the total. */
  lemma CountIsBounded(p: Search, f: Func, nb: int, maxfind: int, run: seq<Counting>, i: nat)
    requires p.Valid() && IsCount(p, f, nb, maxfind, run) && i < |run|
    requires forall t | 0 <= t < |run[i].at| :: run[i].at[t].Gone?
    ensures var total := Total(p, f);
            (if maxfind < total then maxfind else total) <= run[i].found <= total
  {
    hide Share, Matches;
    PartsInPart(p);
    RunCounts(p, f, nb, maxfind, run, i);
    var w := run[i];
    forall t | 0 <= t < |p.nbs|
      ensures w.counted[t] <= Matches(p, f, p.Part(t).lo, p.Part(t).hi)
      ensures w.found < maxfind ==> w.counted[t] == Matches(p, f, p.Part(t).lo, p.Part(t).hi)
    {
      assert CountsRight(p, f, nb, maxfind, w.found, w.at[t], w.counted[t], t);
    }
    assert w.counted[..|w.counted|] == w.counted;
    if p.n.Size() > 0 {
      SharesAddUp(p, f, w.counted, |w.counted|);
      SharesJoin(0, p.n.Size(), |p.nbs|, 0);
    } else {
      EmptyCount(p, f, w.counted);
    }
  }

  lemma EmptyCount(p: Search, f: Func, c: seq<nat>)
    requires p.Valid() && InPart(p) && |c| == |p.nbs| && p.n.Size() == 0
    requires forall t | 0 <= t < |c| :: c[t] <= Matches(p, f, p.Part(t).lo, p.Part(t).hi)
    ensures Sum(c) == 0 == Total(p, f)
  {
    NothingCounted(c);
  }

  /** At every moment the number is between zero and the total, and each match is counted at most once. */
  lemma NeverTooMany(p: Search, f: Func, nb: int, maxfind: int, run: seq<Counting>, i: nat)
    requires p.Valid() && IsCount(p, f, nb, maxfind, run) && i < |run|
    ensures 0 <= run[i].found <= Total(p, f)
  {
    hide Share, Matches;
    PartsInPart(p);
    RunCounts(p, f, nb, maxfind, run, i);
    var w := run[i];
    forall t | 0 <= t < |p.nbs|
      ensures w.counted[t] <= Matches(p, f, p.Part(t).lo, p.Part(t).hi)
    {
      assert CountsRight(p, f, nb, maxfind, w.found, w.at[t], w.counted[t], t);
      MatchesSplit(p, f, p.Part(t).lo, Cursor(p, t, w.at[t]), p.Part(t).hi);
    }
    assert w.counted[..|w.counted|] == w.counted;
    if p.n.Size() > 0 {
      SharesAddUp(p, f, w.counted, |w.counted|);
      SharesJoin(0, p.n.Size(), |p.nbs|, 0);
    } else {
      EmptyCount(p, f, w.counted);
    }
  }

  /** The blocks in which a thread may already have counted a match although the bound had been reached. */
  function LateBlocks(nb: int, s: Counter): int {
    match s
    case Probe(ib, _) => ib
    case Bump(ib, _) => ib
    case Look(ib, _) => ib + 1
    case Behind(ib) => ib + 1
    case Gone => nb
  }

  ghost function LateSum(nb: int, at: seq<Counter>): int {
    if |at| == 0 then 0 else LateSum(nb, at[..|at| - 1]) + LateBlocks(nb, at[|at| - 1])
  }

  /** Once the bound has been reached, every further match is some thread's last one in its block. */
  ghost predicate StopsInTime(nb: int, maxfind: int, w: Counting) {
    w.found >= maxfind ==> w.found <= Below(maxfind) + LateSum(nb, w.at)
  }

  /** The largest number that lets a thread go on, but for a bound that is reached from the start. */
  function Below(maxfind: int): int {
    if maxfind >= 1 then maxfind - 1 else 0
  }

  lemma {:induction false} LateSumUpdated(nb: int, at: seq<Counter>, t: nat, s: Counter)
    requires t < |at|
    ensures LateSum(nb, at[t := s]) == LateSum(nb, at) - LateBlocks(nb, at[t]) + LateBlocks(nb, s)
  {
    var to := at[t := s];
    if t < |at| - 1 {
      LateSumUpdated(nb, at[..|at| - 1], t, s);
      assert to[..|at| - 1] == at[..|at| - 1][t := s];
    } else {
      assert to[..|at| - 1] == at[..|at| - 1];
    }
  }

  /** A thread has not gone through more than nb blocks. */
  ghost predicate InBlocks(nb: int, s: Counter) {
    0 <= LateBlocks(nb, s) <= nb
  }

  lemma {:induction false} LateSumBounded(nb: int, at: seq<Counter>)
    requires forall t | 0 <= t < |at| :: InBlocks(nb, at[t])
    ensures 0 <= LateSum(nb, at) <= |at| * nb
  {
    if |at| > 0 {
      LateSumBounded(nb, at[..|at| - 1]);
      Times(|at| - 1, nb);
    }
  }

  lemma CountsInBlocks(p: Search, f: Func, nb: int, maxfind: int, w: Counting)
    requires p.Valid() && InPart(p) && AllCountRight(p, f, nb, maxfind, w)
    requires forall u | 0 <= u < |p.nbs| :: nb >= p.Own(u)
    ensures forall t | 0 <= t < |w.at| :: InBlocks(nb, w.at[t])
  {
    hide Share, Matches, Search.Cell, StructIndexOf, Search.BlockOf, Search.Part, Addr, InPart;
    forall t | 0 <= t < |w.at|
      ensures InBlocks(nb, w.at[t])
    {
      assert nb >= p.Own(t);
      assert CountsRight(p, f, nb, maxfind, w.found, w.at[t], w.counted[t], t);
    }
  }

  /** An action either leaves the number alone, and goes back to a block only below the bound, or counts and goes on. */
  ghost predicate LateMove(nb: int, maxfind: int, w: Counting, w': Counting, t: nat) {
    && t < |w.at| && |w'.at| == |w.at|
    && var late, late' := LateBlocks(nb, w.at[t]), LateBlocks(nb, w'.at[t]);
       || (w'.found == w.found && (w.found < maxfind || late' >= late))
       || (w'.found == w.found + 1 && late' >= late + 1)
  }

  lemma ActionMoves(p: Search, f: Func, nb: int, maxfind: int, w: Counting, w': Counting, t: nat)
    requires p.Valid() && Action(p, f, nb, maxfind, w, w', t) && InBlocks(nb, w.at[t])
    requires w'.found == w.found + (if w.at[t].Bump? then 1 else 0)
    ensures LateMove(nb, maxfind, w, w', t) && w'.at == w.at[t := w'.at[t]]
  {
    hide StructIndexOf, Search.BlockOf, Addr;
  }

  lemma MoveStopsInTime(nb: int, maxfind: int, w: Counting, w': Counting, t: nat)
    requires LateMove(nb, maxfind, w, w', t) && w'.at == w.at[t := w'.at[t]] && LateSum(nb, w.at) >= 0
    requires StopsInTime(nb, maxfind, w) && w.found >= 0
    ensures StopsInTime(nb, maxfind, w')
  {
    LateSumUpdated(nb, w.at, t, w'.at[t]);
    hide LateSum, LateBlocks;
  }

  lemma SumNonNegative(c: seq<nat>)
    ensures Sum(c) >= 0
  {
  }

  /** No action lets the number run ahead: after a match that reaches the bound its thread leaves the block. */
  lemma ActionStopsInTime(p: Search, f: Func, nb: int, maxfind: int, w: Counting, w': Counting, t: nat)
    requires p.Valid() && InPart(p) && AllCountRight(p, f, nb, maxfind, w) && Action(p, f, nb, maxfind, w, w', t)
    requires forall u | 0 <= u < |p.nbs| :: nb >= p.Own(u)
    requires StopsInTime(nb, maxfind, w)
    ensures StopsInTime(nb, maxfind, w')
  {
    CountsInBlocks(p, f, nb, maxfind, w);
    ActorStillRight(p, f, nb, maxfind, w, w', t);
    LateSumBounded(nb, w.at);
    SumNonNegative(w.counted);
    assert t < |w.at| && w.found == Sum(w.counted);
    hide *;
    ActionMoves(p, f, nb, maxfind, w, w', t);
    MoveStopsInTime(nb, maxfind, w, w', t);
  }

  lemma {:induction false} RunStopsInTime(p: Search, f: Func, nb: int, maxfind: int, run: seq<Counting>, i: nat)
    requires p.Valid() && InPart(p) && IsCount(p, f, nb, maxfind, run) && i < |run|
    ensures StopsInTime(nb, maxfind, run[i])
  {
    hide AllCountRight, Action, InPart, StopsInTime;
    if i == 0 {
      StartsInTime(p, f, nb, maxfind, run);
    } else {
      RunStopsInTime(p, f, nb, maxfind, run, i - 1);
      RunCounts(p, f, nb, maxfind, run, i - 1);
      assert SomeAction(p, f, nb, maxfind, run[i - 1], run[i]);
      var t: nat :| Action(p, f, nb, maxfind, run[i - 1], run[i], t);
      ActionStopsInTime(p, f, nb, maxfind, run[i - 1], run[i], t);
    }
  }

  lemma StartsInTime(p: Search, f: Func, nb: int, maxfind: int, run: seq<Counting>)
    requires p.Valid() && InPart(p) && IsCount(p, f, nb, maxfind, run)
    ensures StopsInTime(nb, maxfind, run[0])
  {
    hide CountsRight, StructIndexOf, Search.BlockOf, Search.Part, Addr, Sum, InPart;
    EnterCounts(p, f, nb, maxfind, run);
    CountsInBlocks(p, f, nb, maxfind, run[0]);
    LateSumBounded(nb, run[0].at);
  }

  /**
   The early stop: at every moment of every run the number exceeds the bound by less than one match per
   block of every thread.
   */
  lemma StopsEarly(p: Search, f: Func, nb: int, maxfind: int, run: seq<Counting>, i: nat)
    requires p.Valid() && IsCount(p, f, nb, maxfind, run) && i < |run|
    ensures run[i].found <= (if maxfind >= 1 then maxfind - 1 else 0) + |p.nbs| * nb
  {
    hide CountsRight, StructIndexOf, Search.BlockOf, Search.Part, Addr, Sum, InPart, Action;
    PartsInPart(p);
    RunCounts(p, f, nb, maxfind, run, i);
    RunStopsInTime(p, f, nb, maxfind, run, i);
    CountsInBlocks(p, f, nb, maxfind, run[i]);
    LateSumBounded(nb, run[i].at);
  }

  /** A single thread with a single block finds exactly as many as it is asked for, or all there are. */
  lemma LoneThreadIsExact(p: Search, f: Func, maxfind: int, run: seq<Counting>, i: nat)
    requires p.Valid() && |p.nbs| == 1 && maxfind >= 1 && IsCount(p, f, 1, maxfind, run) && i < |run|
    requires forall t | 0 <= t < |run[i].at| :: run[i].at[t].Gone?
    ensures var total := Total(p, f); run[i].found == if maxfind < total then maxfind else total
  {
    hide IsCount, Total;
    PartsInPart(p);
    RunCounts(p, f, 1, maxfind, run, i);
    StopsEarly(p, f, 1, maxfind, run, i);
    CountIsBounded(p, f, 1, maxfind, run, i);
  }
}
