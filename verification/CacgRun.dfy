/**
 A whole run of the communication-avoiding kernel (jupiter/cacg.c), block after block: its residual
 slots, in the order they are made, are the residuals of the CG method, so they are mutually
 conjugate, no quotient of pre_inner breaks down before one of them is zero, and one of them is zero
 as soon as there have been as many inner steps as there are unknowns.
 */
module CacgRun {
  import opened Vectors
  import opened CacgCoordinates
  import opened CacgUpdate
  import opened CacgTheorems
  import opened ConjugateGradients

  /** One block: the state it starts from, what pre_inner is handed, and what it makes of it. */
  datatype Turn = Turn(t: State, p: Block, e: Entry, g: seq<Vec>, d: seq<Vec>, rho: seq<real>, gamma: seq<real>,
      myu: seq<real>) {
    ghost predicate Sized(s: nat, n: nat) {
      && s >= 1 && |d| == s + 1 && |rho| == |gamma| == |myu| == s
      && CoefsFit(Recorded(d, rho, gamma), s) && Fits(t, s, n)
    }

    /** The state after the outer update. */
    function After(s: nat, n: nat): (t': State)
      requires Sized(s, n)
      ensures Fits(t', s, n)
    {
      AfterUpdate(t, Recorded(d, rho, gamma), s, n)
    }

    /** The residuals of the block, from the two it starts with, and its scalars. */
    function Line(s: nat, n: nat): (l: Steps)
      requires Sized(s, n)
      ensures l.Fits(n) && |l.rho| == s
    {
      Steps([t.Z[s - 1]] + After(s, n).Z, rho, gamma)
    }
  }

  /** The slots hold preconditioned residuals and Gk their inner products. */
  ghost predicate Ready(S: System, b: Turn, s: nat) {
    && b.p.s == s && S.Shaped()
    && BlockSetting(S.A, b.t, b.p, b.e, b.g, b.d, b.rho, b.gamma, b.myu, S.n)
    && IsGram(b.p.Gk, Basis(b.t.Q, b.t.V, s), Basis(b.t.Z, b.t.W, s), S.n)
    && forall i | 0 <= i <= s :: b.t.V[i] == Apply(S.C, b.t.W[i]) && b.t.Q[i] == Apply(S.C, b.t.Z[i])
  }

  lemma ReadyFits(S: System, b: Turn, s: nat)
    requires Ready(S, b, s)
    ensures S.Shaped() && b.Sized(s, S.n)
  {
    hide InnerStep, Block.Shaped, Banded, BasisRelation, IsGram, Apply, Operator, Basis;
  }

  /** Block b takes over the slots and the scalars block a left. */
  ghost predicate Follows(a: Turn, b: Turn, s: nat, n: nat)
    requires a.Sized(s, n)
  {
    && b.t.Q == a.After(s, n).Q && b.t.Z == a.After(s, n).Z
    && b.e == Entry(a.e.k + 1, a.rho[s - 1], a.gamma[s - 1], a.myu[s - 1])
  }

  /** A run: pre_inner, update and rebuilt bases in turn. */
  ghost predicate Turns(S: System, bs: seq<Turn>, s: nat) {
    && |bs| > 0 && bs[0].e.k == 0
    && (forall k: nat | k < |bs| :: bs[k].Sized(s, S.n) && Ready(S, bs[k], s))
    && (forall k: nat | 0 < k < |bs| :: Follows(bs[k - 1], bs[k], s, S.n))
  }

  /** All residuals of a run in the order they are made, and all scalars. */
  ghost function History(bs: seq<Turn>, s: nat, n: nat): (h: Steps)
    requires |bs| > 0 && forall k: nat | k < |bs| :: bs[k].Sized(s, n)
    ensures h.Fits(n) && |h.rho| >= s
    decreases |bs|
  {
    var l := bs[|bs| - 1].Line(s, n);
    if |bs| == 1 then l else Join(History(bs[..|bs| - 1], s, n), l)
  }

  /** The second run continues the first: its first two residuals are the last two of the other. */
  function Join(h: Steps, l: Steps): Steps
    requires |l.z| >= 2
  {
    Steps(h.z + l.z[2..], h.rho + l.rho, h.gamma + l.gamma)
  }

  /** Step j of one block, in terms of the long vectors. */
  ghost predicate LineStep(S: System, l: Steps, e: Entry, myu: seq<real>, first: bool, j: nat)
    requires S.Shaped() && l.Fits(S.n) && |myu| == |l.rho| && j < |l.rho|
  {
    && l.z[j + 2] == Step(l.rho[j], l.gamma[j], l.z[j + 1], Apply(S.A, Apply(S.C, l.z[j + 1])), l.z[j])
    && myu[j] == S.Mu(l.R(j), l.R(j))
    && l.gamma[j] == Over(myu[j], S.Nu(l.R(j), l.R(j)))
    && l.rho[j] == NextRho(first && j == 0, l.gamma[j], Before(e.gamma, l.gamma, j + 1), myu[j],
                           Before(e.myu, myu, j + 1), Before(e.rho, l.rho, j + 1))
  }

  ghost predicate LineSteps(S: System, l: Steps, e: Entry, myu: seq<real>, first: bool)
    requires S.Shaped() && l.Fits(S.n) && |myu| == |l.rho|
  {
    forall j: nat | j < |l.rho| :: LineStep(S, l, e, myu, first, j)
  }

  /** The line of a block is what its slots held and hold. */
  lemma LineIs(b: Turn, s: nat, n: nat)
    requires b.Sized(s, n)
    ensures b.Line(s, n).z[0] == b.t.Z[s - 1] && b.Line(s, n).z[1] == b.t.Z[s]
    ensures forall j | 0 <= j <= s + 1 :: b.Line(s, n).z[j] == Residual(b.t.Z, b.After(s, n).Z, s, j)
  {
    hide Mixed, XChain;
    SlotSteps(Recorded(b.d, b.rho, b.gamma), b.t.Z, Mixed(b.t.Z, b.t.W, Recorded(b.d, b.rho, b.gamma), s, n), s, n);
  }

  lemma BlockRho(S: System, b: Turn, s: nat, j: nat)
    requires b.Sized(s, S.n) && Ready(S, b, s) && j < s
    ensures b.rho[j] == NextRho(b.e.k == 0 && j == 0, b.gamma[j], Before(b.e.gamma, b.gamma, j + 1), b.myu[j],
                                Before(b.e.myu, b.myu, j + 1), Before(b.e.rho, b.rho, j + 1))
  {
    hide Step, FirstD, Apply, Operator, Over, NextRho, Dot, Block.Shaped, Banded, BasisRelation, IsGram, Basis, Before,
         Linked, Fits;
    assert InnerStep(b.p, b.e, b.g, b.d, b.rho, b.gamma, b.myu, j + 1);
    FirstOnly(s, b.e.k, j);
  }

  lemma BlockDirection(S: System, b: Turn, s: nat, j: nat)
    requires b.Sized(s, S.n) && Ready(S, b, s) && j < s
    ensures b.After(s, S.n).Q[j] == Apply(S.C, b.After(s, S.n).Z[j])
  {
    hide Step, FirstD, Apply, Operator, Over, NextRho, Dot, Block.Shaped, Banded, BasisRelation, IsGram, Basis, Before,
         AfterUpdate, InnerStep;
    StaysPreconditioned(S.C, b.t, b.p, b.e, b.g, b.d, b.rho, b.gamma, b.myu, S.n, j);
  }

  lemma BlockVectors(S: System, b: Turn, s: nat, j: nat)
    requires b.Sized(s, S.n) && Ready(S, b, s) && j < s
    ensures var z, q := b.After(s, S.n).Z, b.After(s, S.n).Q[j];
            && z[j + 1] == Step(b.rho[j], b.gamma[j], Residual(b.t.Z, z, s, j + 1), Apply(S.A, q),
               Residual(b.t.Z, z, s, j))
            && b.myu[j] == Dot(q, Residual(b.t.Z, z, s, j + 1))
            && b.gamma[j] == Over(b.myu[j], Dot(q, Apply(S.A, q)))
  {
    hide Step, FirstD, Apply, Operator, Over, NextRho, Dot, Block.Shaped, Banded, BasisRelation, IsGram, Basis, Before,
         AfterUpdate, InnerStep;
    BlockIsCg(S.A, b.t, b.p, b.e, b.g, b.d, b.rho, b.gamma, b.myu, S.n, j + 1);
  }

  /** The residuals a block makes are its slots. */
  lemma BlockLineStep(S: System, b: Turn, s: nat, j: nat)
    requires S.Shaped() && b.Sized(s, S.n) && Ready(S, b, s) && j < s
    ensures LineStep(S, b.Line(s, S.n), b.e, b.myu, b.e.k == 0, j)
  {
    hide Step, Apply, Over, NextRho, Dot, Before, AfterUpdate, Ready;
    LineIs(b, s, S.n);
    BlockRho(S, b, s, j);
    BlockDirection(S, b, s, j);
    BlockVectors(S, b, s, j);
  }

  /** A block's residuals, put behind those of a run that ends where the block starts, make a longer run. */
  lemma Joined(S: System, h: Steps, l: Steps, e: Entry, myu: seq<real>)
    requires CgRun(S, h) && |h.rho| > 0 && l.Fits(S.n) && |myu| == |l.rho|
    requires LineSteps(S, l, e, myu, false)
    requires h.z[|h.rho|] == l.z[0] && h.z[|h.rho| + 1] == l.z[1]
    requires e.rho == h.rho[|h.rho| - 1] && e.gamma == h.gamma[|h.rho| - 1]
    requires e.myu == S.Mu(h.R(|h.rho| - 1), h.R(|h.rho| - 1))
    ensures CgRun(S, Join(h, l))
  {
    hide Step, Apply, Over, NextRho, System.Mu, System.Nu;
    var t, m := Join(h, l), |h.rho|;
    forall i | 0 <= i < |l.z|
      ensures t.z[m + i] == l.z[i]
    {
    }
    forall j: nat | j < |t.rho|
      ensures CgStep(S, t, j)
    {
      if j < m {
        assert CgStep(S, h, j);
      } else {
        var i := j - m;
        assert LineStep(S, l, e, myu, false, i);
        assert t.z[m + (i + 2)] == l.z[i + 2] && t.z[m + (i + 1)] == l.z[i + 1] && t.z[m + i] == l.z[i];
        if i > 0 {
          assert LineStep(S, l, e, myu, false, i - 1);
        }
      }
    }
  }

  /** A single first block is a run of the method. */
  lemma FirstLine(S: System, l: Steps, e: Entry, myu: seq<real>)
    requires S.Shaped() && l.Fits(S.n) && |myu| == |l.rho|
    requires LineSteps(S, l, e, myu, true)
    ensures CgRun(S, l)
  {
    hide Step, Apply, Over, System.Mu, System.Nu;
    forall j: nat | j < |l.rho|
      ensures CgStep(S, l, j)
    {
      assert LineStep(S, l, e, myu, true, j);
      if j > 0 {
        assert LineStep(S, l, e, myu, true, j - 1);
      }
    }
  }

  lemma TurnsPrefix(S: System, bs: seq<Turn>, s: nat)
    requires Turns(S, bs, s) && |bs| > 1
    ensures Turns(S, bs[..|bs| - 1], s)
  {
    hide Ready, Follows, Turn.Sized;
    var cs := bs[..|bs| - 1];
    forall k: nat | 0 < k < |cs|
      ensures Follows(cs[k - 1], cs[k], s, S.n)
    {
      assert Follows(bs[k - 1], bs[k], s, S.n);
    }
  }

  /** How a run ends: the last slots and scalars. */
  ghost predicate EndsWith(S: System, h: Steps, b: Turn, s: nat)
    requires S.Shaped() && b.Sized(s, S.n) && h.Fits(S.n) && |h.rho| >= s
  {
    && h.z[|h.rho|] == b.After(s, S.n).Z[s - 1] && h.z[|h.rho| + 1] == b.After(s, S.n).Z[s]
    && h.rho[|h.rho| - 1] == b.rho[s - 1] && h.gamma[|h.rho| - 1] == b.gamma[s - 1]
    && b.myu[s - 1] == S.Mu(h.R(|h.rho| - 1), h.R(|h.rho| - 1))
  }

  lemma LineEnds(S: System, b: Turn, s: nat)
    requires S.Shaped() && b.Sized(s, S.n) && LineSteps(S, b.Line(s, S.n), b.e, b.myu, b.e.k == 0)
    ensures EndsWith(S, b.Line(s, S.n), b, s)
  {
    hide AfterUpdate, System.Mu, System.Nu, Step, NextRho, Over, Apply;
    assert LineStep(S, b.Line(s, S.n), b.e, b.myu, b.e.k == 0, s - 1);
  }

  lemma JoinEnds(S: System, h: Steps, b: Turn, s: nat)
    requires S.Shaped() && b.Sized(s, S.n) && h.Fits(S.n) && EndsWith(S, b.Line(s, S.n), b, s)
    requires h.z[|h.rho| + 1] == b.Line(s, S.n).z[1]
    ensures Join(h, b.Line(s, S.n)).Fits(S.n) && EndsWith(S, Join(h, b.Line(s, S.n)), b, s)
  {
    hide AfterUpdate, System.Mu;
    var l := b.Line(s, S.n);
    var t := Join(h, l);
    assert s >= 2 ==> t.z[|t.rho|] == l.z[s];
  }

  /** A run of blocks is a run of the preconditioned three-term CG method on the long vectors. */
  lemma {:induction false} RunIsCg(S: System, bs: seq<Turn>, s: nat)
    requires Turns(S, bs, s)
    ensures S.Shaped() && CgRun(S, History(bs, s, S.n)) && bs[|bs| - 1].e.k == |bs| - 1
    ensures EndsWith(S, History(bs, s, S.n), bs[|bs| - 1], s)
    decreases |bs|
  {
    hide LineSteps, Ready, System.Mu, AfterUpdate, EndsWith, CgRun;
    var b := bs[|bs| - 1];
    ReadyFits(S, b, s);
    var l := b.Line(s, S.n);
    if |bs| == 1 {
      BlockIsLine(S, b, s);
      FirstLine(S, l, b.e, b.myu);
    } else {
      var cs := bs[..|bs| - 1];
      TurnsPrefix(S, bs, s);
      RunIsCg(S, cs, s);
      assert Follows(bs[|cs| - 1], b, s, S.n);
      BlockIsLine(S, b, s);
      RunGrows(S, History(cs, s, S.n), cs[|cs| - 1], b, s);
    }
  }

  lemma BlockIsLine(S: System, b: Turn, s: nat)
    requires S.Shaped() && b.Sized(s, S.n) && Ready(S, b, s)
    ensures LineSteps(S, b.Line(s, S.n), b.e, b.myu, b.e.k == 0)
    ensures EndsWith(S, b.Line(s, S.n), b, s)
  {
    hide LineStep, Ready, System.Mu, AfterUpdate, EndsWith;
    var l, first := b.Line(s, S.n), b.e.k == 0;
    forall j: nat | j < |l.rho|
      ensures LineStep(S, l, b.e, b.myu, first, j)
    {
      BlockLineStep(S, b, s, j);
    }
    LineEnds(S, b, s);
  }

  lemma RunGrows(S: System, h: Steps, a: Turn, b: Turn, s: nat)
    requires CgRun(S, h) && a.Sized(s, S.n) && b.Sized(s, S.n) && |h.rho| >= s && EndsWith(S, h, a, s)
    requires Follows(a, b, s, S.n) && b.e.k > 0
    requires LineSteps(S, b.Line(s, S.n), b.e, b.myu, b.e.k == 0)
    requires EndsWith(S, b.Line(s, S.n), b, s)
    ensures CgRun(S, Join(h, b.Line(s, S.n)))
    ensures EndsWith(S, Join(h, b.Line(s, S.n)), b, s)
  {
    hide LineSteps, System.Mu, AfterUpdate, CgStep;
    LineIs(b, s, S.n);
    Joined(S, h, b.Line(s, S.n), b.e, b.myu);
    JoinEnds(S, h, b, s);
  }

  /** As many residuals as there are inner steps, and one more at the start. */
  lemma {:induction false} HistoryLength(bs: seq<Turn>, s: nat, n: nat)
    requires |bs| > 0 && forall k: nat | k < |bs| :: bs[k].Sized(s, n)
    ensures |History(bs, s, n).rho| == |bs| * s
    decreases |bs|
  {
    hide Turn.Sized, AfterUpdate, Turn.Line;
    var m := |bs| - 1;
    OneMore(m, s);
    if |bs| > 1 {
      HistoryLength(bs[..m], s, n);
    }
  }

  lemma OneMore(m: nat, s: nat)
    ensures (m + 1) * s == m * s + s
  {
  }

  /**
   Any two residuals of a run are conjugate, and no quotient of pre_inner has a zero divisor, until
   a residual is zero.
   */
  lemma RunIsConjugate(S: System, bs: seq<Turn>, s: nat, m: nat)
    requires Turns(S, bs, s) && S.Valid() && m <= |History(bs, s, S.n).rho|
    requires forall j: nat | j < m :: History(bs, s, S.n).R(j) != Zeros(S.n)
    ensures Conjugate(S, History(bs, s, S.n), m)
    ensures forall j: nat | j < m :: NoBreakdown(S, History(bs, s, S.n), j)
  {
    hide CgRun, Conjugate, NoBreakdown, System.Valid, Ready, Follows;
    RunIsCg(S, bs, s);
    ResidualsConjugate(S, History(bs, s, S.n), m);
  }

  /** Enough blocks for the number of unknowns: one of the residuals they made is zero. */
  lemma RunEnds(S: System, bs: seq<Turn>, s: nat)
    requires Turns(S, bs, s) && S.Valid() && |bs| * s >= S.n
    ensures |History(bs, s, S.n).rho| >= S.n
    ensures exists j: nat :: j <= S.n && History(bs, s, S.n).R(j) == Zeros(S.n)
  {
    hide CgRun, System.Valid, Ready, Follows;
    RunIsCg(S, bs, s);
    HistoryLength(bs, s, S.n);
    EndsInTime(S, History(bs, s, S.n));
  }
}
