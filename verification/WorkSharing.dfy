/**
 How a loop is divided among the threads of a team and into blocks (jupiter/common_util.h, 148-235
 and 278-319), and the protocol by which a team agrees on the number of blocks.
 */
module WorkSharing {
  import opened Layout

  /** A half-open interval of loop indices. */
  datatype Range = Range(lo: int, hi: int)

  /** distribute_thread_1di. */
  function Share(first: int, end: int, nth: int, ith: int): Range {
    var n := end - first;
    if n > 0 && ith >= 0 && ith < nth then
      var npt := n / nth;
      var rem := n % nth;
      var ovr := nth - rem;
      var lo := first + ith * npt;
      var hi := lo + npt;
      if ith >= ovr then
        var off := ith - ovr;
        Range(lo + off, hi + (off + 1))
      else Range(lo, hi)
    else Range(first, first)
  }

  /** The shares follow one another without a gap, from the first index to the last. */
  lemma SharesJoin(first: int, end: int, nth: int, ith: nat)
    requires first < end && ith < nth
    ensures Share(first, end, nth, 0).lo == first && Share(first, end, nth, nth - 1).hi == end
    ensures ith + 1 < nth ==> Share(first, end, nth, ith).hi == Share(first, end, nth, ith + 1).lo
  {
    var n := end - first;
    var npt, rem := n / nth, n % nth;
    assert (ith + 1) * npt == ith * npt + npt;
    assert (nth - 1) * npt + npt == nth * npt;
  }

  /** The size of a share. */
  lemma ShareSize(first: int, end: int, nth: int, ith: nat)
    requires ith < nth && first < end
    ensures var r, n := Share(first, end, nth, ith), end - first;
            r.hi - r.lo == n / nth + (if ith >= nth - n % nth then 1 else 0) && n / nth >= 0
  {
    var n := end - first;
    QuotientNonNegative(n, nth);
  }

  lemma QuotientNonNegative(n: int, d: int)
    requires n >= 0 && d > 0
    ensures n / d >= 0
  {
  }

  /** Sizes are n / nth or one more, and later threads get the extra one. */
  lemma SharesAreEven(first: int, end: int, nth: int, ith: nat, jth: nat)
    requires ith <= jth < nth
    ensures var a, b := Share(first, end, nth, ith), Share(first, end, nth, jth);
            0 <= a.hi - a.lo <= b.hi - b.lo <= a.hi - a.lo + 1
  {
    if first < end {
      ShareSize(first, end, nth, ith);
      ShareSize(first, end, nth, jth);
      hide Share;
    }
  }

  /** Every index belongs to a share ... */
  lemma {:induction false} Owner(first: int, end: int, nth: int, q: int, m: nat) returns (ith: nat)
    requires first < end && 0 < m <= nth && first <= q < Share(first, end, nth, m - 1).hi
    ensures ith < m && Share(first, end, nth, ith).lo <= q < Share(first, end, nth, ith).hi
  {
    hide Share;
    ith := m - 1;
    SharesJoin(first, end, nth, ith);
    if q < Share(first, end, nth, ith).lo {
      if m == 1 {
        assert false;
      } else {
        SharesJoin(first, end, nth, m - 2);
        ith := Owner(first, end, nth, q, m - 1);
      }
    }
  }

  /** ... and to only one. */
  lemma {:induction false} SharesAreOrdered(first: int, end: int, nth: int, ith: nat, jth: nat)
    requires first < end && ith < jth < nth
    ensures first <= Share(first, end, nth, ith).lo <= Share(first, end, nth, ith).hi <= Share(first, end, nth, jth).lo
            <= Share(first, end, nth, jth).hi <= end
  {
    hide Share;
    SharesAreEven(first, end, nth, jth - 1, jth);
    SharesJoin(first, end, nth, jth - 1);
    if ith < jth - 1 {
      SharesAreOrdered(first, end, nth, ith, jth - 1);
    } else {
      ShareStarts(first, end, nth, ith);
    }
    ShareEnds(first, end, nth, jth);
  }

  lemma {:induction false} ShareStarts(first: int, end: int, nth: int, ith: nat)
    requires first < end && ith < nth
    ensures first <= Share(first, end, nth, ith).lo
  {
    hide Share;
    SharesJoin(first, end, nth, ith);
    if ith > 0 {
      ShareStarts(first, end, nth, ith - 1);
      SharesJoin(first, end, nth, ith - 1);
      SharesAreEven(first, end, nth, ith - 1, ith - 1);
    }
  }

  lemma {:induction false} ShareEnds(first: int, end: int, nth: int, ith: nat)
    requires first < end && ith < nth
    ensures Share(first, end, nth, ith).hi <= end
    decreases nth - ith
  {
    hide Share;
    SharesJoin(first, end, nth, ith);
    if ith < nth - 1 {
      ShareEnds(first, end, nth, ith + 1);
      SharesAreEven(first, end, nth, ith + 1, ith + 1);
    }
  }

  /** distribute_thread_1db: the block size, and the number of blocks. */
  function BlockSize(nbsest: int): (r: int)
    ensures r > 0
  {
    if nbsest <= 0 then 128 else nbsest
  }

  function Blocks(n: int, nbsest: int): (r: int)
    ensures r >= 0
  {
    if n > 0 then (n - 1) / BlockSize(nbsest) + 1 else 0
  }

  /** The smallest number of blocks that hold n indices; without a request a block holds 128. */
  lemma BlocksAreLeast(n: int, nbsest: int)
    ensures n > 0 && nbsest > 0 ==> (Blocks(n, nbsest) - 1) * nbsest < n <= Blocks(n, nbsest) * nbsest
    ensures n > 0 && nbsest <= 0 ==> (Blocks(n, nbsest) - 1) * 128 < n <= Blocks(n, nbsest) * 128
    ensures n <= 0 ==> Blocks(n, nbsest) == 0
  {
    if n > 0 {
      var s := BlockSize(nbsest);
      DivMod(n - 1, s);
      Times((n - 1) / s, s);
    }
  }

  /** Block ib of a share, cut off at its end. */
  function Block(r: Range, nbs: int, ib: int): Range {
    var lo := r.lo + nbs * ib;
    var hi := lo + nbs;
    Range(lo, if hi > r.hi then r.hi else hi)
  }

  /** The blocks cover their share and no more, also when there are more of them than the share needs. */
  lemma BlocksCover(r: Range, nbsest: int, nb: int, q: int)
    requires nb >= Blocks(r.hi - r.lo, nbsest)
    ensures r.lo <= q < r.hi ==>
              var b := Block(r, BlockSize(nbsest), (q - r.lo) / BlockSize(nbsest));
              0 <= (q - r.lo) / BlockSize(nbsest) < nb && b.lo <= q < b.hi
    ensures forall ib | 0 <= ib :: var b := Block(r, BlockSize(nbsest), ib); b.lo <= q < b.hi ==> r.lo <= q < r.hi
  {
    hide BlockSize;
    var s := BlockSize(nbsest);
    if r.lo <= q < r.hi {
      BlockNumber(q - r.lo, r.hi - r.lo - 1, s);
      hide Blocks;
    }
    forall ib | 0 <= ib
      ensures var b := Block(r, s, ib); b.lo <= q < b.hi ==> r.lo <= q < r.hi
    {
      MulLe(0, ib, s);
    }
  }

  /** The block of position a, which is no further than that of the last position. */
  lemma BlockNumber(a: int, last: int, s: int)
    requires 0 <= a <= last && s > 0
    ensures 0 <= a / s <= last / s && s * (a / s) <= a < s * (a / s) + s
  {
    DivMod(a, s);
    DivMod(last, s);
    MulStep(last / s, a / s, s);
    MulStep(a / s, 0, s);
    Commute(s, a / s);
  }

  /** Where a thread stands in distribute_thread_max_nb. */
  datatype Phase = AtSingle | AfterSingle | Reading | Raising | AtBarrier | Last | Out

  /** The shared number, whether the single region has been taken, and every thread's phase and result. */
  datatype Team = Team(shared: int, taken: bool, at: seq<Phase>, result: seq<int>)

  function Rank(p: Phase): nat {
    match p
    case AtSingle => 0
    case AfterSingle => 1
    case Reading => 2
    case Raising => 3
    case AtBarrier => 4
    case Last => 5
    case Out => 6
  }

  /** All threads have come at least as far as p: a barrier there lets them pass. */
  predicate AllPast(w: Team, p: Phase) {
    forall t | 0 <= t < |w.at| :: Rank(w.at[t]) >= Rank(p)
  }

  /** One atomic action of thread t, whose own number is nb[t]. */
  ghost predicate Act(nb: seq<int>, w: Team, w': Team, t: nat) {
    && t < |w.at| == |w.result| == |nb|
    && match w.at[t]
       case AtSingle =>
         if w.taken then w' == w.(at := w.at[t := AfterSingle])
         else w' == w.(shared := nb[t], taken := true, at := w.at[t := AfterSingle])
       case AfterSingle => AllPast(w, AfterSingle) && w' == w.(at := w.at[t := Reading])
       case Reading => w' == w.(at := w.at[t := if w.shared < nb[t] then Raising else AtBarrier])
       case Raising => w' == w.(shared := if w.shared < nb[t] then nb[t] else w.shared, at := w.at[t := AtBarrier])
       case AtBarrier => AllPast(w, AtBarrier) && w' == w.(at := w.at[t := Last])
       case Last => w' == w.(at := w.at[t := Out], result := w.result[t := w.shared])
       case Out => false
  }

  ghost predicate SomeAct(nb: seq<int>, w: Team, w': Team) {
    exists t: nat :: Act(nb, w, w', t)
  }

  /** shared is one of the numbers once taken, and no smaller than that of any thread past the update. */
  ghost predicate Agreeing(nb: seq<int>, w: Team) {
    && |w.at| == |w.result| == |nb|
    && ((exists t :: 0 <= t < |nb| && w.at[t] != AtSingle) ==> w.taken)
    && (w.taken ==> w.shared in nb)
    && (forall t | 0 <= t < |nb| && Rank(w.at[t]) >= Rank(AtBarrier) :: w.shared >= nb[t])
    && ((exists t :: 0 <= t < |nb| && Rank(w.at[t]) >= Rank(Reading)) ==> AllPast(w, AfterSingle))
    && ((exists t :: 0 <= t < |nb| && Rank(w.at[t]) >= Rank(Last)) ==> AllPast(w, AtBarrier))
    && (forall t | 0 <= t < |nb| && w.at[t] == Out :: w.result[t] == w.shared)
  }

  function Assembled(nb: seq<int>, shared: int, result: seq<int>): Team {
    Team(shared, false, seq(|nb|, i => AtSingle), result)
  }

  lemma ActKeeps(nb: seq<int>, w: Team, w': Team, t: nat)
    requires Agreeing(nb, w) && Act(nb, w, w', t)
    ensures Agreeing(nb, w')
  {
    match w.at[t]
    case AtSingle =>
      assert !AllPast(w, AfterSingle);
      assert forall u | 0 <= u < |nb| :: Rank(w.at[u]) < Rank(Reading);
    case AfterSingle =>
    case Reading =>
      assert !AllPast(w, AtBarrier);
    case Raising =>
      assert !AllPast(w, AtBarrier);
    case AtBarrier =>
    case Last =>
  }

  ghost predicate IsTeamRun(nb: seq<int>, run: seq<Team>) {
    && |run| > 0 && (exists shared, result :: |result| == |nb| && run[0] == Assembled(nb, shared, result))
    && (forall i, j | 0 <= i && j == i + 1 && j < |run| :: SomeAct(nb, run[i], run[j]))
  }

  lemma {:induction false} RunAgrees(nb: seq<int>, run: seq<Team>, i: nat)
    requires IsTeamRun(nb, run) && i < |run|
    ensures Agreeing(nb, run[i])
  {
    if i > 0 {
      RunAgrees(nb, run, i - 1);
      assert SomeAct(nb, run[i - 1], run[i]);
      var t: nat :| Act(nb, run[i - 1], run[i], t);
      ActKeeps(nb, run[i - 1], run[i], t);
    }
  }

  /** Whatever the interleaving, every thread that has left got the largest number of the team. */
  lemma AllGetMaximum(nb: seq<int>, run: seq<Team>, i: nat, t: nat)
    requires IsTeamRun(nb, run) && i < |run| && t < |nb|
    ensures |run[i].at| == |run[i].result| == |nb|
    ensures run[i].at[t] == Out ==> run[i].result[t] in nb && forall u | 0 <= u < |nb| :: nb[u] <= run[i].result[t]
  {
    RunAgrees(nb, run, i);
    var w := run[i];
    if w.at[t] == Out {
      assert Rank(w.at[t]) >= Rank(Last);
      assert AllPast(w, AtBarrier);
    }
  }

  /** The barriers never lock a team: until all have left, some thread can act. */
  lemma NoThreadIsStuck(nb: seq<int>, run: seq<Team>, i: nat) returns (t: nat, w': Team)
    requires IsTeamRun(nb, run) && i < |run| && exists u :: 0 <= u < |run[i].at| && run[i].at[u] != Out
    ensures Act(nb, run[i], w', t)
  {
    RunAgrees(nb, run, i);
    var w := run[i];
    var u: nat :| u < |w.at| && w.at[u] != Out;
    t := Slowest(w, |w.at|);
    assert Rank(w.at[t]) <= Rank(w.at[u]);
    match w.at[t]
    case AtSingle =>
      w' := if w.taken then w.(at := w.at[t := AfterSingle])
            else w.(shared := nb[t], taken := true, at := w.at[t := AfterSingle]);
    case AfterSingle => w' := w.(at := w.at[t := Reading]);
    case Reading => w' := w.(at := w.at[t := if w.shared < nb[t] then Raising else AtBarrier]);
    case Raising => w' := w.(shared := if w.shared < nb[t] then nb[t] else w.shared, at := w.at[t := AtBarrier]);
    case AtBarrier => w' := w.(at := w.at[t := Last]);
    case Last => w' := w.(at := w.at[t := Out], result := w.result[t := w.shared]);
  }

  /** A thread no other one of the first m is behind. */
  lemma {:induction false} Slowest(w: Team, m: nat) returns (t: nat)
    requires 0 < m <= |w.at|
    ensures t < m && forall u | 0 <= u < m :: Rank(w.at[t]) <= Rank(w.at[u])
  {
    t := 0;
    if m > 1 {
      t := Slowest(w, m - 1);
      if Rank(w.at[m - 1]) < Rank(w.at[t]) {
        t := m - 1;
      }
    }
  }
}
