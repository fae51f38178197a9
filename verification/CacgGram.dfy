/**
 How the tables of calc_GramMat_local complete the Gram matrix Gk of pre_inner (jupiter/cacg.c): they
 give three of its four blocks, and the fourth is the diagonal of the myu that the previous block
 recorded, because the residuals of a run are conjugate.
 */
module CacgGram {
  import opened Vectors
  import opened CacgCoordinates
  import opened CacgUpdate
  import opened CacgTheorems
  import opened ConjugateGradients
  import opened CacgRun
  import opened GramMatrix

  /** One entry: the old myu on the diagonal, Gkk_1 beside it and, transposed, below it, Gkk in the corner. */
  function GramEntry(s: nat, myu: seq<real>, Gkk1: seq<Vec>, Gkk: seq<Vec>, r: nat, c: nat): real
    requires |myu| == s && IsMatrix(Gkk1, s, s + 1) && IsMatrix(Gkk, s + 1, s + 1) && r <= 2 * s && c <= 2 * s
  {
    if r < s then
      if c >= s then Gkk1[r][c - s] else if r == c then myu[r] else 0.0
    else if c < s then Gkk1[c][r - s]
    else Gkk[r - s][c - s]
  }

  function Assembled(s: nat, myu: seq<real>, Gkk1: seq<Vec>, Gkk: seq<Vec>): (G: seq<Vec>)
    requires |myu| == s && IsMatrix(Gkk1, s, s + 1) && IsMatrix(Gkk, s + 1, s + 1)
    ensures IsMatrix(G, 2 * s + 1, 2 * s + 1)
    ensures forall r, c | 0 <= r <= 2 * s && 0 <= c <= 2 * s :: G[r][c] == GramEntry(s, myu, Gkk1, Gkk, r, c)
  {
    seq(2 * s + 1, (r: nat) requires r <= 2 * s =>
      seq(2 * s + 1, (c: nat) requires c <= 2 * s => GramEntry(s, myu, Gkk1, Gkk, r, c)))
  }

  /** The tables as GramLocal leaves them, for slots that hold the vectors of t. */
  ghost predicate TablesOf(t: State, s: nat, Gkk1: seq<Vec>, Gkk: seq<Vec>, n: nat)
    requires Fits(t, s, n)
  {
    && IsMatrix(Gkk1, s, s + 1) && IsMatrix(Gkk, s + 1, s + 1)
    && (forall i, l | 0 <= i < s && 0 <= l <= s :: Gkk1[i][l] == Dot(t.V[l], t.Z[i]))
    && (forall i, l | 0 <= i <= s && 0 <= l <= s :: Gkk[l][i] == Dot(t.V[l], t.W[i]))
  }

  /** What GramLocal computes are such tables. */
  lemma GramLocalMakesTables(k: Kernel, t: State, Gkk1: seq<Vec>, Gkk: seq<Vec>, n: nat)
    requires k.Valid() && Fits(t, k.s, n) && IsMatrix(Gkk1, k.s, k.s + 1) && IsMatrix(Gkk, k.s + 1, k.s + 1)
    requires forall l | 0 <= l <= k.s ::
               t.V[l] == Unknowns(k, k.V, l) && t.Z[l] == Unknowns(k, k.Z, l) && t.W[l] == Unknowns(k, k.W, l)
    requires forall i: nat, l: nat | i < k.s && l <= k.s :: Gkk1[i][l] == BoxDot(k, l, i, k.nz)
    requires forall i: nat, l: nat | i <= k.s && l <= k.s :: Gkk[l][i] == BoxDot(k, l, k.s + i, k.nz)
    ensures TablesOf(t, k.s, Gkk1, Gkk, n)
  {
    hide Unknowns, BoxDot, Dot;
    forall i: nat, l: nat | i < k.s && l <= k.s
      ensures Gkk1[i][l] == Dot(t.V[l], t.Z[i])
    {
      BoxIsDot(k, l, i);
    }
    forall i: nat, l: nat | i <= k.s && l <= k.s
      ensures Gkk[l][i] == Dot(t.V[l], t.W[i])
    {
      BoxIsDot(k, l, k.s + i);
    }
  }

  /** G is the Gram matrix of the bases of t. */
  ghost predicate GramOf(G: seq<Vec>, t: State, s: nat, n: nat)
    requires Fits(t, s, n)
  {
    var KQ, KZ := Basis(t.Q, t.V, s), Basis(t.Z, t.W, s);
    && IsMatrix(KQ, 2 * s + 1, n) && IsMatrix(KZ, 2 * s + 1, n) && IsMatrix(G, 2 * s + 1, 2 * s + 1)
    && IsGram(G, KQ, KZ, n)
  }

  /** With a symmetric preconditioner and conjugate old slots the assembled matrix is the Gram matrix of the bases. */
  lemma AssembledIsGram(S: System, t: State, s: nat, myu: seq<real>, Gkk1: seq<Vec>, Gkk: seq<Vec>)
    requires s >= 1 && Fits(t, s, S.n) && S.Shaped() && Symmetric(S.C, S.n) && |myu| == s
    requires TablesOf(t, s, Gkk1, Gkk, S.n)
    requires forall i | 0 <= i <= s :: t.V[i] == Apply(S.C, t.W[i]) && t.Q[i] == Apply(S.C, t.Z[i])
    requires forall i, j | 0 <= i < s && 0 <= j < s :: S.Mu(t.Z[i], t.Z[j]) == if i == j then myu[i] else 0.0
    ensures GramOf(Assembled(s, myu, Gkk1, Gkk), t, s, S.n)
  {
    hide Dot, Apply, Symmetric;
    var KQ, KZ := Basis(t.Q, t.V, s), Basis(t.Z, t.W, s);
    BasisIsMatrix(t.Q, t.V, s, S.n);
    BasisIsMatrix(t.Z, t.W, s, S.n);
    forall r: nat, c: nat | r <= 2 * s && c <= 2 * s
      ensures GramEntry(s, myu, Gkk1, Gkk, r, c) == Dot(KQ[r], KZ[c])
    {
      if r < s && c >= s {
        MuSymmetric(S, t.Z[r], t.W[c - s]);
      }
    }
  }

  /** The slots a run ends with are the last residuals, and their myu are the recorded ones. */
  lemma {:induction false} LastSlots(S: System, bs: seq<Turn>, s: nat, i: nat)
    requires Turns(S, bs, s) && S.Shaped() && i <= s
    ensures var h, b := History(bs, s, S.n), bs[|bs| - 1];
            && h.R(|h.rho| - s + i) == b.After(s, S.n).Z[i]
            && (i < s ==> b.myu[i] == S.Mu(h.R(|h.rho| - s + i), h.R(|h.rho| - s + i)))
  {
    hide Ready, Follows, System.Mu, AfterUpdate, EndsWith, CgRun, LineStep;
    var b := bs[|bs| - 1];
    var l := b.Line(s, S.n);
    if i < s {
      BlockIsLine(S, b, s);
      assert LineStep(S, l, b.e, b.myu, b.e.k == 0, i);
      LineStepMyu(S, l, b.e, b.myu, b.e.k == 0, i);
    }
    if |bs| > 1 {
      var cs := bs[..|bs| - 1];
      TurnsPrefix(S, bs, s);
      RunIsCg(S, cs, s);
      LastMeetsLine(S, History(cs, s, S.n), cs[|cs| - 1], b, s);
      assert Follows(bs[|cs| - 1], b, s, S.n);
    }
  }

  lemma LineStepMyu(S: System, l: Steps, e: Entry, myu: seq<real>, first: bool, j: nat)
    requires S.Shaped() && l.Fits(S.n) && |myu| == |l.rho| && j < |l.rho| && LineStep(S, l, e, myu, first, j)
    ensures myu[j] == S.Mu(l.R(j), l.R(j))
  {
  }

  lemma LastMeetsLine(S: System, h: Steps, a: Turn, b: Turn, s: nat)
    requires S.Shaped() && a.Sized(s, S.n) && b.Sized(s, S.n) && h.Fits(S.n) && |h.rho| >= s && EndsWith(S, h, a, s)
    requires Follows(a, b, s, S.n)
    ensures forall i | 0 <= i <= s + 1 :: Join(h, b.Line(s, S.n)).z[|h.rho| + i] == b.Line(s, S.n).z[i]
  {
    hide AfterUpdate, System.Mu;
    LineIs(b, s, S.n);
  }

  /** The state of the next block: its slots are where the last one left them, the bases V and W are rebuilt. */
  ghost predicate Rebuilt(S: System, b: Turn, t: State, s: nat) {
    && S.Shaped() && b.Sized(s, S.n) && Fits(t, s, S.n)
    && t.Q == b.After(s, S.n).Q && t.Z == b.After(s, S.n).Z
    && forall i | 0 <= i <= s :: t.V[i] == Apply(S.C, t.W[i])
  }

  lemma SlotsPreconditioned(S: System, b: Turn, s: nat)
    requires S.Shaped() && b.Sized(s, S.n) && Ready(S, b, s)
    ensures forall i | 0 <= i <= s :: b.After(s, S.n).Q[i] == Apply(S.C, b.After(s, S.n).Z[i])
  {
    hide Step, FirstD, Apply, Operator, Over, NextRho, Dot, Block.Shaped, Banded, BasisRelation, IsGram, Basis,
         AfterUpdate, InnerStep;
    forall i: nat | i <= s
      ensures b.After(s, S.n).Q[i] == Apply(S.C, b.After(s, S.n).Z[i])
    {
      StaysPreconditioned(S.C, b.t, b.p, b.e, b.g, b.d, b.rho, b.gamma, b.myu, S.n, i);
    }
  }

  /** A run none of whose residuals was zero. */
  ghost predicate StillRunning(S: System, bs: seq<Turn>, s: nat) {
    && Turns(S, bs, s) && S.Valid()
    && forall j: nat | j < |History(bs, s, S.n).rho| :: History(bs, s, S.n).R(j) != Zeros(S.n)
  }

  ghost predicate GramFrom(t: State, s: nat, n: nat, myu: seq<real>, Gkk1: seq<Vec>, Gkk: seq<Vec>) {
    && Fits(t, s, n) && |myu| == s && IsMatrix(Gkk1, s, s + 1) && IsMatrix(Gkk, s + 1, s + 1)
    && GramOf(Assembled(s, myu, Gkk1, Gkk), t, s, n)
  }

  /** The inner products of two slots of a run. */
  lemma SlotsConjugate(S: System, bs: seq<Turn>, s: nat, i: nat, j: nat)
    requires Turns(S, bs, s) && S.Shaped() && Symmetric(S.C, S.n) && i < s && j < s
    requires Conjugate(S, History(bs, s, S.n), |History(bs, s, S.n).rho|)
    ensures S.Mu(bs[|bs| - 1].After(s, S.n).Z[i], bs[|bs| - 1].After(s, S.n).Z[j]) == if i == j then bs[|bs| - 1].myu[i]
            else 0.0
  {
    hide Ready, Follows, AfterUpdate, Conjugate, System.Mu, Symmetric, Turn.After, Turn.Line, History, Join;
    LastSlots(S, bs, s, i);
    LastSlots(S, bs, s, j);
    if i != j {
      PairConjugate(S, History(bs, s, S.n), |History(bs, s, S.n).rho| - s + i, |History(bs, s, S.n).rho| - s + j);
    }
  }

  lemma PairConjugate(S: System, h: Steps, i: nat, j: nat)
    requires S.Shaped() && Symmetric(S.C, S.n) && h.Fits(S.n) && i <= |h.rho| && j <= |h.rho| && i != j
    requires Conjugate(S, h, |h.rho|)
    ensures S.Mu(h.R(i), h.R(j)) == 0.0
  {
    hide System.Mu, Symmetric;
    if j < i {
      MuSymmetric(S, h.R(i), h.R(j));
    }
  }

  /**
   The next block of a run: from the tables of calc_GramMat_local and the myu of the block before, the
   Gram matrix of the new bases is complete, as pre_inner needs it.
   */
  lemma NextGram(S: System, bs: seq<Turn>, s: nat, t: State, Gkk1: seq<Vec>, Gkk: seq<Vec>)
    requires |bs| > 0 && Rebuilt(S, bs[|bs| - 1], t, s) && TablesOf(t, s, Gkk1, Gkk, S.n) && StillRunning(S, bs, s)
    ensures GramFrom(t, s, S.n, bs[|bs| - 1].myu, Gkk1, Gkk)
  {
    hide Ready, Follows, AfterUpdate, CgRun, Conjugate, NoBreakdown, GramOf, Assembled, System.Mu, Symmetric, Definite;
    var h := History(bs, s, S.n);
    RunIsConjugate(S, bs, s, |h.rho|);
    var b := bs[|bs| - 1];
    SlotsPreconditioned(S, b, s);
    hide Turns, TablesOf;
    forall i: nat, j: nat | i < s && j < s
      ensures S.Mu(t.Z[i], t.Z[j]) == if i == j then b.myu[i] else 0.0
    {
      SlotsConjugate(S, bs, s, i, j);
    }
    AssembledIsGram(S, t, s, b.myu, Gkk1, Gkk);
  }
}
