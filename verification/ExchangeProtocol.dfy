/**
 The neighbour exchange as a protocol (jupiter/communication.c, 772-812 and 901-971).  Ranks
 run at their own speed: nothing orders one rank's z, y and x phases against another's except
 the messages themselves.  Messages wait in one queue per (source, destination) pair, because
 source and tag (the receiver's rank) are all that a receive is matched by.

 The topology and what a message carries are parameters; HaloExchange supplies them.
 */
module ExchangeProtocol {
  import opened Layout

  /** D is a rank's data and M a message; (k, up) is the upper or lower side of axis k. */
  datatype System<!D, !M> = System(
    npe: nat,
    neighbour: (int, nat, bool) -> int,
    payload: (D, nat, bool) -> M,
    received: (D, nat, Option<M>, Option<M>) -> D
  ) {
    predicate IsRank(r: int) {
      0 <= r < npe
    }

    predicate Joined(r: int, k: nat, up: bool) {
      IsRank(r) && k < 3 && neighbour(r, k, up) != -1
    }

    /** Neighbours see each other from opposite sides. */
    predicate Mutual(r: int, k: nat, up: bool) {
      Joined(r, k, up) ==> IsRank(neighbour(r, k, up)) && neighbour(neighbour(r, k, up), k, !up) == r
    }

    /** No pair of ranks is joined twice. */
    predicate Single(r: int, k: nat, up: bool, k': nat, up': bool) {
      Joined(r, k, up) && Joined(r, k', up') && neighbour(r, k, up) == neighbour(r, k', up') ==> k == k' && up == up'
    }

    ghost predicate Valid() {
      && (forall r, k, up :: Mutual(r, k, up))
      && (forall r, k, up, k', up' :: Single(r, k, up, k', up'))
    }

    /** The message rank r gets from side (k, up) when the others hold F, and its data after axis k. */
    ghost function From(F: seq<D>, r: int, k: nat, up: bool): Option<M>
      requires Valid() && |F| == npe && IsRank(r) && k < 3
    {
      assert Mutual(r, k, up);
      var s := neighbour(r, k, up);
      if s == -1 then None else Some(payload(F[s], k, !up))
    }

    ghost function Exchanged(F: seq<D>, r: int, k: nat): D
      requires Valid() && |F| == npe && IsRank(r) && k < 3
    {
      received(F[r], k, From(F, r, k, false), From(F, r, k, true))
    }

    /** Lock step: the data of all ranks after the first k axes. */
    ghost function After(F: seq<D>, k: nat): (G: seq<D>)
      requires Valid() && |F| == npe && k <= 3
      ensures |G| == npe
    {
      if k == 0 then F
      else
        var G := After(F, k - 1);
        seq(npe, (r: nat) requires r < npe => Exchanged(G, r, k - 1))
    }
  }

  /** Waiting: the sends of axis k are posted; otherwise axis k is still to be packed.  k == 3 is the end. */
  datatype Pc = Pc(k: nat, waiting: bool) {
    predicate Sent(k': nat) {
      k' < k || (k' == k && waiting)
    }

    predicate Done() {
      k >= 3
    }
  }

  type Network<M> = map<(int, int), seq<M>>

  datatype World<D, M> = World(pc: seq<Pc>, data: seq<D>, net: Network<M>)

  function Queue<M>(net: Network<M>, s: int, t: int): seq<M> {
    if (s, t) in net then net[(s, t)] else []
  }

  function Send<M>(net: Network<M>, s: int, t: int, msg: M): Network<M> {
    if t == -1 then net else net[(s, t) := Queue(net, s, t) + [msg]]
  }

  function Take<M>(net: Network<M>, s: int, t: int): Network<M> {
    if s == -1 || Queue(net, s, t) == [] then net else net[(s, t) := Queue(net, s, t)[1..]]
  }

  ghost predicate WorldOf<D, M>(sys: System<D, M>, w: World<D, M>) {
    sys.Valid() && |w.data| == sys.npe && |w.pc| == sys.npe
  }

  /** Rank r packs the slabs of its next axis and posts both sends. */
  ghost predicate Post<D, M>(sys: System<D, M>, w: World<D, M>, w': World<D, M>, r: int)
    requires WorldOf(sys, w)
  {
    && sys.IsRank(r) && !w.pc[r].Done() && !w.pc[r].waiting
    && var k := w.pc[r].k;
    && var toLow := Send(w.net, r, sys.neighbour(r, k, false), sys.payload(w.data[r], k, false));
    && w' == World(w.pc[r := Pc(k, true)], w.data,
                   Send(toLow, r, sys.neighbour(r, k, true), sys.payload(w.data[r], k, true)))
  }

  /** The message at the head of the queue from r's neighbour on side (k, up). */
  function Head<D, M>(sys: System<D, M>, net: Network<M>, r: int, k: nat, up: bool): Option<M> {
    var s := sys.neighbour(r, k, up);
    if s == -1 || Queue(net, s, r) == [] then None else Some(Queue(net, s, r)[0])
  }

  /** The wait for side (k, up) is over: there is no neighbour, or its message has come. */
  predicate Matched<D, M>(sys: System<D, M>, net: Network<M>, r: int, k: nat, up: bool) {
    sys.neighbour(r, k, up) != -1 ==> Queue(net, sys.neighbour(r, k, up), r) != []
  }

  /** Rank r has both messages of its axis and unpacks them. */
  ghost predicate Complete<D, M>(sys: System<D, M>, w: World<D, M>, w': World<D, M>, r: int)
    requires WorldOf(sys, w)
  {
    && sys.IsRank(r) && !w.pc[r].Done() && w.pc[r].waiting
    && var k := w.pc[r].k;
    && Matched(sys, w.net, r, k, false) && Matched(sys, w.net, r, k, true)
    && w' == World(w.pc[r := Pc(k + 1, false)],
                   w.data[r := sys.received(w.data[r], k, Head(sys, w.net, r, k, false), Head(sys, w.net, r, k, true))],
                   Take(Take(w.net, sys.neighbour(r, k, false), r), sys.neighbour(r, k, true), r))
  }

  ghost predicate Step<D, M>(sys: System<D, M>, w: World<D, M>, w': World<D, M>) {
    WorldOf(sys, w) && exists r :: Post(sys, w, w', r) || Complete(sys, w, w', r)
  }

  ghost predicate Init<D, M>(sys: System<D, M>, F: seq<D>, w: World<D, M>) {
    WorldOf(sys, w) && w.data == F && w.net == map[] && forall r | 0 <= r < sys.npe :: w.pc[r] == Pc(0, false)
  }

  /** What the queue from s to side (k, up) must hold: the one message under way, if any. */
  ghost predicate QueueOk<D, M>(sys: System<D, M>, F: seq<D>, w: World<D, M>, s: int, k: nat, up: bool)
    requires WorldOf(sys, w) && |F| == sys.npe
  {
    sys.Joined(s, k, up) ==>
      assert sys.Mutual(s, k, up);
      var t := sys.neighbour(s, k, up);
      && Queue(w.net, s, t) ==
         (if w.pc[s].Sent(k) && w.pc[t].k <= k then [sys.payload(sys.After(F, k)[s], k, up)] else [])
      && (k < w.pc[t].k ==> w.pc[s].Sent(k))
  }

  ghost predicate RankOk<D, M>(sys: System<D, M>, F: seq<D>, w: World<D, M>, r: int)
    requires WorldOf(sys, w) && |F| == sys.npe
  {
    sys.IsRank(r) ==> w.pc[r].k <= 3 && (w.pc[r].waiting ==> w.pc[r].k < 3) && w.data[r] == sys.After(F, w.pc[r].k)[r]
  }

  ghost predicate Inv<D, M>(sys: System<D, M>, F: seq<D>, w: World<D, M>) {
    && WorldOf(sys, w) && |F| == sys.npe
    && (forall r :: RankOk(sys, F, w, r))
    && (forall s, k, up :: QueueOk(sys, F, w, s, k, up))
  }

  lemma PostKeeps<D, M>(sys: System<D, M>, F: seq<D>, w: World<D, M>, w': World<D, M>, r: int)
    requires Inv(sys, F, w) && Post(sys, w, w', r)
    ensures Inv(sys, F, w')
  {
    var k := w.pc[r].k;
    assert RankOk(sys, F, w, r);
    forall q
      ensures RankOk(sys, F, w', q)
    {
      assert RankOk(sys, F, w, q);
    }
    forall s, k', up
      ensures QueueOk(sys, F, w', s, k', up)
    {
      assert QueueOk(sys, F, w, s, k', up);
      assert sys.Mutual(s, k', up);
      assert sys.Single(s, k', up, k, false) && sys.Single(s, k', up, k, true);
      assert sys.Single(r, k, false, k, true);
    }
  }

  lemma CompleteKeepsRanks<D, M>(sys: System<D, M>, F: seq<D>, w: World<D, M>, w': World<D, M>, r: int)
    requires Inv(sys, F, w) && Complete(sys, w, w', r)
    ensures forall q :: RankOk(sys, F, w', q)
  {
    var k := w.pc[r].k;
    assert RankOk(sys, F, w, r);
    HeadIsFrom(sys, F, w, r, k, false);
    HeadIsFrom(sys, F, w, r, k, true);
    forall q
      ensures RankOk(sys, F, w', q)
    {
      assert RankOk(sys, F, w, q);
    }
  }

  lemma CompleteKeepsQueue<D, M>(sys: System<D, M>, F: seq<D>, w: World<D, M>, w': World<D, M>, r: int,
                                 s: int, k': nat, up: bool)
    requires Inv(sys, F, w) && Complete(sys, w, w', r)
    ensures QueueOk(sys, F, w', s, k', up)
  {
    var k := w.pc[r].k;
    assert QueueOk(sys, F, w, s, k', up);
    assert sys.Mutual(s, k', up);
    if sys.Joined(s, k', up) && sys.neighbour(s, k', up) == r {
      assert sys.Joined(r, k', !up);
      assert sys.Single(r, k', !up, k, false) && sys.Single(r, k', !up, k, true) && sys.Single(r, k, false, k, true);
      if k' == k {
        HeadIsFrom(sys, F, w, r, k, !up);
      }
    }
  }

  /** A waiting rank finds at the head of a queue what its neighbour holds after the previous axes. */
  lemma HeadIsFrom<D, M>(sys: System<D, M>, F: seq<D>, w: World<D, M>, r: int, k: nat, up: bool)
    requires Inv(sys, F, w) && sys.IsRank(r) && k < 3 && w.pc[r] == Pc(k, true)
    ensures Matched(sys, w.net, r, k, up) ==> Head(sys, w.net, r, k, up) == sys.From(sys.After(F, k), r, k, up)
    ensures sys.Joined(r, k, up) ==>
              sys.IsRank(sys.neighbour(r, k, up)) &&
              (Matched(sys, w.net, r, k, up) <==> w.pc[sys.neighbour(r, k, up)].Sent(k))
  {
    assert sys.Mutual(r, k, up);
    assert QueueOk(sys, F, w, sys.neighbour(r, k, up), k, !up);
  }

  lemma StepKeeps<D, M>(sys: System<D, M>, F: seq<D>, w: World<D, M>, w': World<D, M>)
    requires Inv(sys, F, w) && Step(sys, w, w')
    ensures Inv(sys, F, w')
  {
    var r :| Post(sys, w, w', r) || Complete(sys, w, w', r);
    if Post(sys, w, w', r) {
      PostKeeps(sys, F, w, w', r);
    } else {
      CompleteKeepsRanks(sys, F, w, w', r);
      forall s, k, up
        ensures QueueOk(sys, F, w', s, k, up)
      {
        CompleteKeepsQueue(sys, F, w, w', r, s, k, up);
      }
    }
  }

  ghost predicate IsRun<D, M>(sys: System<D, M>, F: seq<D>, run: seq<World<D, M>>) {
    |run| > 0 && Init(sys, F, run[0]) && forall i | 0 <= i < |run| - 1 :: Step(sys, run[i], run[i + 1])
  }

  lemma InitInv<D, M>(sys: System<D, M>, F: seq<D>, w: World<D, M>)
    requires Init(sys, F, w)
    ensures Inv(sys, F, w)
  {
    forall s, k, up
      ensures QueueOk(sys, F, w, s, k, up)
    {
      assert sys.Mutual(s, k, up);
    }
  }

  lemma {:induction false} RunKeeps<D, M>(sys: System<D, M>, F: seq<D>, run: seq<World<D, M>>, i: nat)
    requires IsRun(sys, F, run) && i < |run|
    ensures Inv(sys, F, run[i])
  {
    if i == 0 {
      InitInv(sys, F, run[0]);
    } else {
      RunKeeps(sys, F, run, i - 1);
      assert Step(sys, run[i - 1], run[i - 1 + 1]);
      StepKeeps(sys, F, run[i - 1], run[i]);
    }
  }

  /** However the ranks interleave, a rank that is through holds what lock step would give it. */
  lemma AnyOrderIsLockStep<D, M>(sys: System<D, M>, F: seq<D>, run: seq<World<D, M>>, i: nat, r: int)
    requires IsRun(sys, F, run) && i < |run| && sys.IsRank(r) && |run[i].pc| == |run[i].data| == |F| == sys.npe
    requires run[i].pc[r].Done()
    ensures run[i].data[r] == sys.After(F, 3)[r]
  {
    RunKeeps(sys, F, run, i);
    assert RankOk(sys, F, run[i], r);
  }

  /** A rank that no other rank is behind. */
  ghost function Last(pc: seq<Pc>): (r: nat)
    requires |pc| > 0
    ensures r < |pc| && forall q | 0 <= q < |pc| :: Work(pc[r]) <= Work(pc[q])
  {
    if |pc| == 1 then 0
    else
      var r := Last(pc[..|pc| - 1]);
      assert forall q | 0 <= q < |pc| - 1 :: pc[q] == pc[..|pc| - 1][q];
      if Work(pc[r]) <= Work(pc[|pc| - 1]) then r else |pc| - 1
  }

  function Work(pc: Pc): nat {
    2 * pc.k + if pc.waiting then 1 else 0
  }

  /** The exchange never deadlocks: unless every rank is through, some rank can move. */
  lemma NoDeadlock<D, M>(sys: System<D, M>, F: seq<D>, w: World<D, M>) returns (w': World<D, M>)
    requires Inv(sys, F, w) && exists r :: sys.IsRank(r) && !w.pc[r].Done()
    ensures Step(sys, w, w')
  {
    var q :| sys.IsRank(q) && !w.pc[q].Done();
    var r := Last(w.pc);
    var k := w.pc[r].k;
    assert RankOk(sys, F, w, r) && RankOk(sys, F, w, q);
    if w.pc[r].waiting {
      HeadIsFrom(sys, F, w, r, k, false);
      HeadIsFrom(sys, F, w, r, k, true);
      w' := World(w.pc[r := Pc(k + 1, false)],
                  w.data[r := sys.received(w.data[r], k, Head(sys, w.net, r, k, false), Head(sys, w.net, r, k, true))],
                  Take(Take(w.net, sys.neighbour(r, k, false), r), sys.neighbour(r, k, true), r));
      assert Complete(sys, w, w', r);
    } else {
      var toLow := Send(w.net, r, sys.neighbour(r, k, false), sys.payload(w.data[r], k, false));
      w' := World(w.pc[r := Pc(k, true)], w.data,
                  Send(toLow, r, sys.neighbour(r, k, true), sys.payload(w.data[r], k, true)));
      assert Post(sys, w, w', r);
    }
  }

  ghost function TotalWork(pc: seq<Pc>): nat {
    if pc == [] then 0 else TotalWork(pc[..|pc| - 1]) + Work(pc[|pc| - 1])
  }

  lemma {:induction false} TotalWorkUpdate(pc: seq<Pc>, r: nat, p: Pc)
    requires r < |pc|
    ensures TotalWork(pc[r := p]) == TotalWork(pc) - Work(pc[r]) + Work(p)
  {
    var last := |pc| - 1;
    if r == last {
      assert pc[r := p][..last] == pc[..last];
    } else {
      assert pc[r := p][..last] == pc[..last][r := p];
      TotalWorkUpdate(pc[..last], r, p);
    }
  }

  lemma {:induction false} TotalWorkBound(pc: seq<Pc>)
    requires forall r | 0 <= r < |pc| :: Work(pc[r]) <= 6
    ensures TotalWork(pc) <= 6 * |pc|
  {
    if pc != [] {
      TotalWorkBound(pc[..|pc| - 1]);
    }
  }

  lemma {:induction false} RunWork<D, M>(sys: System<D, M>, F: seq<D>, run: seq<World<D, M>>, i: nat)
    requires IsRun(sys, F, run) && i < |run|
    ensures TotalWork(run[i].pc) == i
  {
    if i == 0 {
      NoWork(run[0].pc);
    } else {
      RunWork(sys, F, run, i - 1);
      assert Step(sys, run[i - 1], run[i - 1 + 1]);
      var w, w' := run[i - 1], run[i];
      var r :| Post(sys, w, w', r) || Complete(sys, w, w', r);
      TotalWorkUpdate(w.pc, r, w'.pc[r]);
    }
  }

  lemma {:induction false} NoWork(pc: seq<Pc>)
    requires forall r | 0 <= r < |pc| :: pc[r] == Pc(0, false)
    ensures TotalWork(pc) == 0
  {
    if pc != [] {
      NoWork(pc[..|pc| - 1]);
    }
  }

  /** Every run is finite: six actions a rank, whatever the order. */
  lemma RunIsShort<D, M>(sys: System<D, M>, F: seq<D>, run: seq<World<D, M>>)
    requires IsRun(sys, F, run)
    ensures |run| <= 6 * sys.npe + 1
  {
    var i := |run| - 1;
    RunWork(sys, F, run, i);
    RunKeeps(sys, F, run, i);
    forall r | 0 <= r < |run[i].pc|
      ensures Work(run[i].pc[r]) <= 6
    {
      assert RankOk(sys, F, run[i], r);
    }
    TotalWorkBound(run[i].pc);
  }
}
