/**
 What the communication-avoiding kernel is for (jupiter/cacg.c): the coordinates pre_inner computes
 stand for long vectors, one outer update is smax steps of the preconditioned three-term CG
 recurrence, the residual slots stay residuals, and x may be updated late.
 */
module CacgTheorems {
  import opened Vectors
  import opened CacgCoordinates
  import opened CacgUpdate

  /** The records of pre_inner as the outer update receives them. */
  function Recorded(d: seq<Vec>, rho: seq<real>, gamma: seq<real>): Coefs
    requires |d| >= 1
  {
    Coefs(d[1..], rho, gamma)
  }

  /** The coordinates of one more residual than pre_inner forms. */
  function Extended(g: seq<Vec>, d: seq<Vec>, rho: seq<real>, gamma: seq<real>, s: nat): (h: seq<Vec>)
    requires s >= 1 && |g| == |d| == s + 1 && |rho| == |gamma| == s && |g[s]| == |d[s]| == |g[s - 1]|
    ensures |h| == s + 2
  {
    g + [Step(rho[s - 1], gamma[s - 1], g[s], d[s], g[s - 1])]
  }

  /** What both families of slots bring into a block: their last two slots are the first two coordinates. */
  ghost predicate Linked(p: Block, g: seq<Vec>, P: seq<Vec>, R: seq<Vec>, n: nat) {
    && p.s >= 1 && IsMatrix(P, p.s + 1, n) && IsMatrix(R, p.s + 1, n)
    && R[0] == P[p.s] && |g| >= 1 && g[0] == Unit(p.N(), p.s - 1)
  }

  /** The two vectors the slots start from. */
  lemma ChainStarts(p: Block, e: Entry, g: seq<Vec>, d: seq<Vec>, rho: seq<real>, gamma: seq<real>, myu: seq<real>,
                    P: seq<Vec>, R: seq<Vec>, n: nat)
    requires Inner(p, e, g, d, rho, gamma, myu, p.s) && Linked(p, g, P, R, n)
    ensures IsMatrix(Basis(P, R, p.s), p.N(), n) && |Extended(g, d, rho, gamma, p.s)[1]| == p.N()
    ensures P[p.s - 1] == Combination(Basis(P, R, p.s), g[0], n)
    ensures P[p.s] == Combination(Basis(P, R, p.s), g[1], n)
  {
    hide Step, FirstD, Apply, Operator, Over, NextRho, Dot, Combination, Block.Shaped;
    var K := Basis(P, R, p.s);
    BasisIsMatrix(P, R, p.s, n);
    CombinationUnit(K, n, p.s - 1);
    CombinationUnit(K, n, p.s);
    assert InnerStep(p, e, g, d, rho, gamma, myu, 1);
  }

  /** Coordinates h of size N that follow the recurrence of c from their third element on. */
  ghost predicate Recurrent(c: Coefs, h: seq<Vec>, N: nat) {
    && |c.rho| == |c.gamma| == |c.d| && IsMatrix(c.d, |c.d|, N) && IsMatrix(h, |c.d| + 2, N)
    && forall j | 2 <= j < |h| :: h[j] == Step(c.rho[j - 2], c.gamma[j - 2], h[j - 1], c.d[j - 2], h[j - 2])
  }

  /** A recurrence on long vectors follows the recurrence on their coordinates. */
  lemma {:induction false} ChainOfCoordinates(c: Coefs, zp: Vec, z: Vec, y: seq<Vec>, K: seq<Vec>, h: seq<Vec>, n: nat,
                                              k: nat)
    requires Recurrent(c, h, |K|) && IsMatrix(K, |K|, n) && IsMatrix(y, |c.d|, n) && k < |h|
    requires zp == Combination(K, h[0], n) && z == Combination(K, h[1], n)
    requires forall j | 0 <= j < |y| :: y[j] == Combination(K, c.d[j], n)
    ensures Chain(c, zp, z, y, k) == Combination(K, h[k], n)
  {
    hide Step, Combination;
    if k >= 2 {
      ChainOfCoordinates(c, zp, z, y, K, h, n, k - 1);
      ChainOfCoordinates(c, zp, z, y, K, h, n, k - 2);
      ChainNext(c, zp, z, y, K, n, k, h[k - 1], c.d[k - 2], h[k - 2]);
    }
  }

  lemma ExtendedRecurs(p: Block, e: Entry, g: seq<Vec>, d: seq<Vec>, rho: seq<real>, gamma: seq<real>, myu: seq<real>)
    requires Inner(p, e, g, d, rho, gamma, myu, p.s)
    ensures Recurrent(Recorded(d, rho, gamma), Extended(g, d, rho, gamma, p.s), p.N())
  {
    hide Step, FirstD, Apply, Operator, Over, NextRho, Dot, Block.Shaped, InnerStep;
    var c, h := Recorded(d, rho, gamma), Extended(g, d, rho, gamma, p.s);
    forall j | 2 <= j < |h|
      ensures h[j] == Step(c.rho[j - 2], c.gamma[j - 2], h[j - 1], c.d[j - 2], h[j - 2])
    {
      ExtendedStep(p, e, g, d, rho, gamma, myu, j);
    }
  }

  /** The slot recurrence on long vectors follows the coordinates pre_inner computes. */
  lemma ChainTracks(p: Block, e: Entry, g: seq<Vec>, d: seq<Vec>, rho: seq<real>, gamma: seq<real>,
                    myu: seq<real>, P: seq<Vec>, R: seq<Vec>, n: nat, k: nat)
    requires Inner(p, e, g, d, rho, gamma, myu, p.s) && Linked(p, g, P, R, n) && k <= p.s + 1
    ensures IsMatrix(Basis(P, R, p.s), p.N(), n)
    ensures |Extended(g, d, rho, gamma, p.s)[k]| == p.N()
    ensures var c := Recorded(d, rho, gamma);
            CoefsFit(c, p.s) &&
            Chain(c, P[p.s - 1], P[p.s], Mixed(P, R, c, p.s, n), k) ==
            Combination(Basis(P, R, p.s), Extended(g, d, rho, gamma, p.s)[k], n)
  {
    hide Step, FirstD, Apply, Operator, Over, NextRho, Dot, Combination, Block.Shaped, InnerStep, Chain, Basis;
    var c := Recorded(d, rho, gamma);
    ChainStarts(p, e, g, d, rho, gamma, myu, P, R, n);
    ExtendedRecurs(p, e, g, d, rho, gamma, myu);
    ChainOfCoordinates(c, P[p.s - 1], P[p.s], Mixed(P, R, c, p.s, n), Basis(P, R, p.s), Extended(g, d, rho, gamma, p.s),
        n, k);
  }

  /** One step of a recurrence on combinations is a step on their coordinates. */
  lemma ChainNext(c: Coefs, zp: Vec, z: Vec, y: seq<Vec>, K: seq<Vec>, n: nat, k: nat, a: Vec, d: Vec, b: Vec)
    requires 2 <= k <= |y| + 1 && |c.rho| == |c.gamma| == |y| && |z| == |zp| == n && IsMatrix(y, |y|, n)
    requires |a| == |d| == |b| && IsMatrix(K, |a|, n)
    requires Chain(c, zp, z, y, k - 1) == Combination(K, a, n) && Chain(c, zp, z, y, k - 2) == Combination(K, b, n)
    requires y[k - 2] == Combination(K, d, n)
    ensures Chain(c, zp, z, y, k) == Combination(K, Step(c.rho[k - 2], c.gamma[k - 2], a, d, b), n)
  {
    hide Step, Combination;
    CombinationStep(K, n, c.rho[k - 2], c.gamma[k - 2], a, d, b);
  }

  lemma ExtendedStep(p: Block, e: Entry, g: seq<Vec>, d: seq<Vec>, rho: seq<real>, gamma: seq<real>, myu: seq<real>,
                     k: nat)
    requires Inner(p, e, g, d, rho, gamma, myu, p.s) && 2 <= k <= p.s + 1
    ensures Extended(g, d, rho, gamma, p.s)[k] == Step(rho[k - 2], gamma[k - 2], g[k - 1], d[k - 1], g[k - 2])
  {
    hide Step, FirstD, Apply, Operator, Over, NextRho, Dot;
    if k <= p.s {
      assert InnerStep(p, e, g, d, rho, gamma, myu, k);
    }
  }

  /** Every new slot is the basis combined with its coordinates. */
  lemma SlotsTrack(p: Block, e: Entry, g: seq<Vec>, d: seq<Vec>, rho: seq<real>, gamma: seq<real>, myu: seq<real>,
                   P: seq<Vec>, R: seq<Vec>, n: nat)
    requires Inner(p, e, g, d, rho, gamma, myu, p.s) && Linked(p, g, P, R, n)
    ensures var c := Recorded(d, rho, gamma);
            var K, h := Basis(P, R, p.s), Extended(g, d, rho, gamma, p.s);
            CoefsFit(c, p.s) && IsMatrix(K, p.N(), n) &&
            forall j | 0 <= j <= p.s ::
              |h[j + 1]| == p.N() &&
              NewSlots(c, P, Mixed(P, R, c, p.s, n), p.s, n)[j] == Combination(K, h[j + 1], n)
  {
    hide Chain, Mixed, Combination, Basis, InnerStep, Step;
    ChainTracks(p, e, g, d, rho, gamma, myu, P, R, n, 0);
    forall j | 0 <= j <= p.s
      ensures |Extended(g, d, rho, gamma, p.s)[j + 1]| == p.N()
      ensures NewSlots(Recorded(d, rho, gamma), P, Mixed(P, R, Recorded(d, rho, gamma), p.s, n), p.s, n)[j] ==
              Combination(Basis(P, R, p.s), Extended(g, d, rho, gamma, p.s)[j + 1], n)
    {
      ChainTracks(p, e, g, d, rho, gamma, myu, P, R, n, j + 1);
    }
  }

  /**
   B has nothing below its first subdiagonal, as for a monomial, Newton or Chebyshev basis, and T,
   which says how the last block's recurrence multiplies by A, nothing above its first superdiagonal.
   */
  ghost predicate Banded(p: Block)
    requires p.Valid()
  {
    && (forall r, c | 0 <= r <= p.s && 0 <= c < p.s && r > c + 1 :: p.B[r][c] == 0.0)
    && (forall r, c | 0 <= r < p.s && 0 <= c < p.s && r + 1 < c :: p.T[r][c] == 0.0)
  }

  /** v has no coordinates from position k on. */
  ghost predicate EndsBefore(v: Vec, k: nat) {
    forall i | k <= i < |v| :: v[i] == 0.0
  }

  /** v has no coordinates before position k. */
  ghost predicate StartsFrom(v: Vec, k: nat) {
    forall i | 0 <= i < k && i < |v| :: v[i] == 0.0
  }

  lemma {:induction false} DotVanishes(u: Vec, v: Vec, n: nat)
    requires n <= |u| && n <= |v| && forall i | 0 <= i < n :: u[i] == 0.0 || v[i] == 0.0
    ensures DotTo(u, v, n) == 0.0
  {
    if n > 0 {
      DotVanishes(u, v, n - 1);
    }
  }

  /** The operator lengthens a coordinate vector by at most one. */
  lemma OperatorLengthens(p: Block, v: Vec, k: nat)
    requires p.Valid() && p.Shaped() && Banded(p) && |v| == p.N() && p.s <= k && EndsBefore(v, k)
    ensures EndsBefore(Apply(Operator(p), v), k + 1)
  {
    forall r | k + 1 <= r < p.N()
      ensures Apply(Operator(p), v)[r] == 0.0
    {
      forall c | 0 <= c < p.N()
        ensures Operator(p)[r][c] == 0.0 || v[c] == 0.0
      {
        assert Operator(p)[r][c] == TEntry(p, r, c) + BEntry(p, r, c);
      }
      DotVanishes(Operator(p)[r], v, p.N());
    }
  }

  /** The j-th residual has no coordinate from s + j on; in particular none at the end before the block ends. */
  lemma {:induction false} CoordinatesGrow(p: Block, e: Entry, g: seq<Vec>, d: seq<Vec>, rho: seq<real>,
                                           gamma: seq<real>,
                                           myu: seq<real>, j: nat)
    requires Inner(p, e, g, d, rho, gamma, myu, p.s) && p.Shaped() && Banded(p) && j <= p.s
    requires g[0] == Unit(p.N(), p.s - 1) && d[0] == Apply(Operator(p), g[0])
    ensures EndsBefore(g[j], p.s + j) && EndsBefore(d[j], p.s + j + 1)
    ensures j >= 1 ==> EndsBefore(g[j - 1], p.s + j - 1) && EndsBefore(d[j - 1], p.s + j)
  {
    hide FirstD, Operator, Over, NextRho, Dot, Apply, Block.Shaped, Banded;
    if j > 0 {
      CoordinatesGrow(p, e, g, d, rho, gamma, myu, j - 1);
      assert InnerStep(p, e, g, d, rho, gamma, myu, j);
      if j > 1 {
        StepEnds(rho[j - 2], gamma[j - 2], g[j - 1], d[j - 1], g[j - 2], p.s + j);
      }
    }
    CoordinatesTrack(p, e, g, d, rho, gamma, myu, p.s, j);
    OperatorLengthens(p, g[j], p.s + j);
  }

  lemma StepEnds(r: real, a: real, z: Vec, y: Vec, q: Vec, k: nat)
    requires |z| == |y| == |q| && EndsBefore(z, k) && EndsBefore(y, k) && EndsBefore(q, k)
    ensures EndsBefore(Step(r, a, z, y, q), k)
  {
    forall i | k <= i < |z|
      ensures Step(r, a, z, y, q)[i] == 0.0
    {
      StepZero(r, a);
    }
  }

  /** From where the coordinates of residual j >= 1 may start; the first block never looks back. */
  function Low(p: Block, e: Entry, j: nat): nat
    requires j <= p.s + 1
  {
    if e.k == 0 then p.s else p.s + 1 - j
  }

  /** The operator reaches back by at most one, and not from the new part of the basis. */
  lemma OperatorReaches(p: Block, v: Vec, k: nat)
    requires p.Valid() && p.Shaped() && Banded(p) && |v| == p.N() && k <= p.s && StartsFrom(v, k)
    ensures k == p.s ==> StartsFrom(Apply(Operator(p), v), k)
    ensures k > 0 ==> StartsFrom(Apply(Operator(p), v), k - 1)
  {
    forall r | 0 <= r < k && (k == p.s || r < k - 1)
      ensures Apply(Operator(p), v)[r] == 0.0
    {
      forall c | 0 <= c < p.N()
        ensures Operator(p)[r][c] == 0.0 || v[c] == 0.0
      {
        assert Operator(p)[r][c] == TEntry(p, r, c) + BEntry(p, r, c);
      }
      DotVanishes(Operator(p)[r], v, p.N());
    }
  }

  lemma StepStarts(r: real, a: real, z: Vec, y: Vec, q: Vec, k: nat)
    requires |z| == |y| == |q| && StartsFrom(z, k) && StartsFrom(y, k) && (r == 1.0 || StartsFrom(q, k))
    ensures StartsFrom(Step(r, a, z, y, q), k)
  {
    forall i | 0 <= i < k && i < |z|
      ensures Step(r, a, z, y, q)[i] == 0.0
    {
      assert r == 1.0 || q[i] == 0.0;
      StepZero(r, a);
    }
  }

  /**
   No residual of a block needs the oldest slot before the block ends, and in the first block none
   needs any old slot.
   */
  lemma {:induction false} CoordinatesReach(p: Block, e: Entry, g: seq<Vec>, d: seq<Vec>, rho: seq<real>,
                                            gamma: seq<real>,
                                            myu: seq<real>, j: nat)
    requires Inner(p, e, g, d, rho, gamma, myu, p.s) && p.Shaped() && Banded(p) && 1 <= j <= p.s
    requires g[0] == Unit(p.N(), p.s - 1) && d[0] == Apply(Operator(p), g[0])
    ensures StartsFrom(g[j], Low(p, e, j)) && StartsFrom(d[j], Low(p, e, j + 1))
    ensures j >= 2 ==> StartsFrom(g[j - 1], Low(p, e, j - 1))
  {
    hide FirstD, Operator, Over, Dot, Apply, Block.Shaped, Banded, Step;
    assert InnerStep(p, e, g, d, rho, gamma, myu, j);
    if j > 1 {
      CoordinatesReach(p, e, g, d, rho, gamma, myu, j - 1);
      assert InnerStep(p, e, g, d, rho, gamma, myu, j - 1);
      FirstOnly(p.s, e.k, j - 2);
      StepStarts(rho[j - 2], gamma[j - 2], g[j - 1], d[j - 1], g[j - 2], Low(p, e, j));
    }
    CoordinatesTrack(p, e, g, d, rho, gamma, myu, p.s, j);
    OperatorReaches(p, g[j], Low(p, e, j));
  }

  /** Only the very first inner step of all is the first one. */
  lemma FirstOnly(s: nat, k: nat, j: nat)
    requires s >= 1
    ensures (s * k + (j + 1) == 1) == (k == 0 && j == 0)
  {
    if k > 0 {
      assert s * k == s * (k - 1) + s;
      assert s * (k - 1) >= 0;
    }
  }

  /**
   How the basis was built: the operator A maps basis vector c of Q to what column c of the coordinate
   operator says, for the columns from lo on.  It cannot hold for the oldest slot, whose recurrence
   goes back to a vector that is gone.
   */
  ghost predicate BasisRelation(A: seq<Vec>, p: Block, lo: nat, KQ: seq<Vec>, KZ: seq<Vec>, n: nat)
    requires p.Valid() && IsMatrix(A, n, n) && IsMatrix(KQ, p.N(), n) && IsMatrix(KZ, p.N(), n)
  {
    forall c | lo <= c < 2 * p.s :: Apply(A, KQ[c]) == Combination(KZ, Column(Operator(p), c), n)
  }

  /** A applied to a combination of K. */
  lemma ApplyCombination(A: seq<Vec>, K: seq<Vec>, g: Vec, n: nat, i: nat)
    requires IsMatrix(A, |A|, n) && IsMatrix(K, |g|, n) && i < |A|
    ensures Apply(A, Combination(K, g, n))[i] == Dot(Apply(K, A[i]), g)
  {
    hide Dot;
    Adjoint(A[i], Transposed(K, n), g);
    assert Transposed(Transposed(K, n), |K|) == K by {
      TransposedTwice(K, n);
    }
  }

  /** A combination whose coordinates are themselves a matrix applied to g. */
  lemma CombinationOfApply(K: seq<Vec>, M: seq<Vec>, g: Vec, n: nat, i: nat)
    requires IsMatrix(M, |K|, |g|) && IsMatrix(K, |K|, n) && i < n
    ensures Combination(K, Apply(M, g), n)[i] == Dot(Apply(Transposed(M, |g|), Column(K, i)), g)
  {
    hide Dot;
    Adjoint(Column(K, i), M, g);
  }

  /** Coordinates that end early enough: combining A-times coordinates is applying A. */
  lemma OperatorIsA(A: seq<Vec>, p: Block, lo: nat, KQ: seq<Vec>, KZ: seq<Vec>, g: Vec, n: nat)
    requires p.Valid() && IsMatrix(A, n, n) && IsMatrix(KQ, p.N(), n) && IsMatrix(KZ, p.N(), n)
    requires BasisRelation(A, p, lo, KQ, KZ, n) && |g| == p.N() && StartsFrom(g, lo) && EndsBefore(g, 2 * p.s)
    ensures Combination(KZ, Apply(Operator(p), g), n) == Apply(A, Combination(KQ, g, n))
  {
    hide Operator, Combination, DotTo;
    forall i | 0 <= i < n
      ensures Combination(KZ, Apply(Operator(p), g), n)[i] == Apply(A, Combination(KQ, g, n))[i]
    {
      ApplyCombination(A, KQ, g, n, i);
      CombinationOfApply(KZ, Operator(p), g, n, i);
      var u, v := Apply(Transposed(Operator(p), p.N()), Column(KZ, i)), Apply(KQ, A[i]);
      forall c | 0 <= c < p.N()
        ensures u[c] == v[c] || g[c] == 0.0
      {
        if lo <= c < 2 * p.s {
          BasisEntry(A, p, lo, KQ, KZ, n, i, c);
        }
      }
      DotCongruent(u, v, g, p.N());
    }
  }

  lemma BasisEntry(A: seq<Vec>, p: Block, lo: nat, KQ: seq<Vec>, KZ: seq<Vec>, n: nat, i: nat, c: nat)
    requires p.Valid() && IsMatrix(A, n, n) && IsMatrix(KQ, p.N(), n) && IsMatrix(KZ, p.N(), n)
    requires BasisRelation(A, p, lo, KQ, KZ, n) && i < n && lo <= c < 2 * p.s
    ensures Dot(Column(Operator(p), c), Column(KZ, i)) == Dot(KQ[c], A[i])
  {
    hide Operator, DotTo;
    DotCommutes(A[i], KQ[c], n);
    DotCommutes(Column(KZ, i), Column(Operator(p), c), p.N());
    assert Apply(A, KQ[c])[i] == Combination(KZ, Column(Operator(p), c), n)[i];
  }

  /** Gk holds the inner products of the two bases. */
  ghost predicate IsGram(G: seq<Vec>, KQ: seq<Vec>, KZ: seq<Vec>, n: nat)
    requires IsMatrix(KQ, |KQ|, n) && IsMatrix(KZ, |KQ|, n) && IsMatrix(G, |KQ|, |KQ|)
  {
    forall r, c | 0 <= r < |KQ| && 0 <= c < |KQ| :: G[r][c] == Dot(KQ[r], KZ[c])
  }

  /** The forms on coordinates are inner products of the long vectors. */
  lemma GramForm(G: seq<Vec>, KQ: seq<Vec>, KZ: seq<Vec>, n: nat, g: Vec, h: Vec)
    requires |KQ| == |g| == |h| && IsMatrix(KQ, |g|, n) && IsMatrix(KZ, |g|, n) && IsMatrix(G, |g|, |g|)
    requires IsGram(G, KQ, KZ, n)
    ensures Dot(Apply(G, h), g) == Dot(Combination(KQ, g, n), Combination(KZ, h, n))
  {
    hide DotTo;
    var u := Combination(KQ, g, n);
    Adjoint(u, Transposed(KZ, n), h);
    TransposedTwice(KZ, n);
    var w := Apply(KZ, u);
    assert w == Apply(Transposed(G, |g|), g) by {
      forall c | 0 <= c < |g|
        ensures w[c] == Dot(Column(G, c), g)
      {
        ApplyCombination(KZ, KQ, g, n, c);
        GramColumn(G, KQ, KZ, n, c);
      }
    }
    Adjoint(g, G, h);
    DotCommutes(g, Apply(G, h), |g|);
  }

  lemma GramColumn(G: seq<Vec>, KQ: seq<Vec>, KZ: seq<Vec>, n: nat, c: nat)
    requires IsMatrix(KQ, |KQ|, n) && IsMatrix(KZ, |KQ|, n) && IsMatrix(G, |KQ|, |KQ|) && IsGram(G, KQ, KZ, n)
    requires c < |KQ|
    ensures Apply(KQ, KZ[c]) == Column(G, c)
  {
  }

  /** Residual j of a block: the slot before the last one, the last one, and then the new ones. */
  function Residual(P: seq<Vec>, P': seq<Vec>, s: nat, j: nat): Vec
    requires s >= 1 && |P| == |P'| == s + 1 && j <= s + 1
  {
    if j == 0 then P[s - 1] else P'[j - 1]
  }

  /** The setting of one block: the state, the basis and what pre_inner made of it. */
  ghost predicate BlockSetting(A: seq<Vec>, t: State, p: Block, e: Entry, g: seq<Vec>, d: seq<Vec>, rho: seq<real>,
                               gamma: seq<real>, myu: seq<real>, n: nat)
  {
    && Inner(p, e, g, d, rho, gamma, myu, p.s) && p.Shaped() && Banded(p)
    && Fits(t, p.s, n) && Linked(p, g, t.Q, t.V, n) && Linked(p, g, t.Z, t.W, n)
    && d[0] == Apply(Operator(p), g[0])
    && IsMatrix(A, n, n) && IsMatrix(Basis(t.Q, t.V, p.s), p.N(), n) && IsMatrix(Basis(t.Z, t.W, p.s), p.N(), n)
    && BasisRelation(A, p, Low(p, e, p.s), Basis(t.Q, t.V, p.s), Basis(t.Z, t.W, p.s), n)
  }

  /** The combined vectors of a block really are A times the new q slots. */
  lemma CombinedIsA(A: seq<Vec>, t: State, p: Block, e: Entry, g: seq<Vec>, d: seq<Vec>, rho: seq<real>,
                    gamma: seq<real>,
                    myu: seq<real>, n: nat, k: nat)
    requires BlockSetting(A, t, p, e, g, d, rho, gamma, myu, n) && k < p.s
    ensures var c := Recorded(d, rho, gamma);
            CoefsFit(c, p.s) &&
            Mixed(t.Z, t.W, c, p.s, n)[k] ==
            Apply(A, NewSlots(c, t.Q, Mixed(t.Q, t.V, c, p.s, n), p.s, n)[k])
  {
    hide Step, FirstD, Apply, Operator, Over, NextRho, Dot, Combination, Block.Shaped, Banded, BasisRelation, NewSlots,
         Basis, InnerStep;
    SlotsTrack(p, e, g, d, rho, gamma, myu, t.Q, t.V, n);
    CoordinatesGrow(p, e, g, d, rho, gamma, myu, k + 1);
    CoordinatesTrack(p, e, g, d, rho, gamma, myu, p.s, k + 1);
    CoordinatesReach(p, e, g, d, rho, gamma, myu, k + 1);
    OperatorIsA(A, p, Low(p, e, p.s), Basis(t.Q, t.V, p.s), Basis(t.Z, t.W, p.s), g[k + 1], n);
  }

  /**
   One block is smax steps of the three-term CG recurrence on the long vectors, and if Gk is the Gram
   matrix of the bases its scalars are the ones of that method: gamma = <q, z> / <q, A q>.
   */
  lemma BlockIsCg(A: seq<Vec>, t: State, p: Block, e: Entry, g: seq<Vec>, d: seq<Vec>, rho: seq<real>, gamma: seq<real>,
                  myu: seq<real>, n: nat, j: nat)
    requires BlockSetting(A, t, p, e, g, d, rho, gamma, myu, n) && 1 <= j <= p.s
    requires IsGram(p.Gk, Basis(t.Q, t.V, p.s), Basis(t.Z, t.W, p.s), n)
    ensures CoefsFit(Recorded(d, rho, gamma), p.s)
    ensures var t' := AfterUpdate(t, Recorded(d, rho, gamma), p.s, n);
            var z, q := (i: nat) requires i <= p.s + 1 => Residual(t.Z, t'.Z, p.s, i), Residual(t.Q, t'.Q, p.s, j);
            && z(j + 1) == Step(rho[j - 1], gamma[j - 1], z(j), Apply(A, q), z(j - 1))
            && myu[j - 1] == Dot(q, z(j))
            && gamma[j - 1] == Over(myu[j - 1], Dot(q, Apply(A, q)))
  {
    hide Step, FirstD, Apply, Operator, Over, NextRho, Dot, Combination, Block.Shaped, Banded, BasisRelation, NewSlots,
         Basis, IsGram, XChain;
    var s, c := p.s, Recorded(d, rho, gamma);
    CombinedIsA(A, t, p, e, g, d, rho, gamma, myu, n, j - 1);
    SlotSteps(c, t.Z, Mixed(t.Z, t.W, c, s, n), s, n);
    SlotsTrack(p, e, g, d, rho, gamma, myu, t.Q, t.V, n);
    SlotsTrack(p, e, g, d, rho, gamma, myu, t.Z, t.W, n);
    assert InnerStep(p, e, g, d, rho, gamma, myu, j);
    GramForm(p.Gk, Basis(t.Q, t.V, s), Basis(t.Z, t.W, s), n, g[j], g[j]);
    GramForm(p.Gk, Basis(t.Q, t.V, s), Basis(t.Z, t.W, s), n, g[j], d[j]);
  }

  /** If the q basis is the preconditioned z basis, the new q slots are the preconditioned residuals. */
  lemma StaysPreconditioned(C: seq<Vec>, t: State, p: Block, e: Entry, g: seq<Vec>, d: seq<Vec>, rho: seq<real>,
                            gamma: seq<real>, myu: seq<real>, n: nat, j: nat)
    requires Inner(p, e, g, d, rho, gamma, myu, p.s) && Fits(t, p.s, n) && IsMatrix(C, n, n) && j <= p.s
    requires Linked(p, g, t.Q, t.V, n) && Linked(p, g, t.Z, t.W, n)
    requires forall i | 0 <= i <= p.s :: t.V[i] == Apply(C, t.W[i]) && t.Q[i] == Apply(C, t.Z[i])
    ensures CoefsFit(Recorded(d, rho, gamma), p.s)
    ensures var t' := AfterUpdate(t, Recorded(d, rho, gamma), p.s, n); t'.Q[j] == Apply(C, t'.Z[j])
  {
    hide Step, FirstD, Operator, Over, NextRho, NewSlots, XChain, Extended, InnerStep, Dot, Apply, Combination, Mixed,
         Basis, Chain;
    var s, KQ, KZ := p.s, Basis(t.Q, t.V, p.s), Basis(t.Z, t.W, p.s);
    var h := Extended(g, d, rho, gamma, s)[j + 1];
    ChainTracks(p, e, g, d, rho, gamma, myu, t.Q, t.V, n, j + 1);
    ChainTracks(p, e, g, d, rho, gamma, myu, t.Z, t.W, n, j + 1);
    BasisPreconditioned(C, t, s, n);
    CombinationPreconditioned(C, KQ, KZ, h, n);
  }

  lemma BasisPreconditioned(C: seq<Vec>, t: State, s: nat, n: nat)
    requires Fits(t, s, n) && IsMatrix(C, n, n)
    requires forall i | 0 <= i <= s :: t.V[i] == Apply(C, t.W[i]) && t.Q[i] == Apply(C, t.Z[i])
    ensures IsMatrix(Basis(t.Q, t.V, s), 2 * s + 1, n) && IsMatrix(Basis(t.Z, t.W, s), 2 * s + 1, n)
    ensures forall c | 0 <= c <= 2 * s :: Basis(t.Q, t.V, s)[c] == Apply(C, Basis(t.Z, t.W, s)[c])
  {
    hide Apply;
    BasisIsMatrix(t.Q, t.V, s, n);
    BasisIsMatrix(t.Z, t.W, s, n);
  }

  /** Preconditioning commutes with combining. */
  lemma CombinationPreconditioned(C: seq<Vec>, KQ: seq<Vec>, KZ: seq<Vec>, h: Vec, n: nat)
    requires IsMatrix(C, n, n) && |KQ| == |h| && IsMatrix(KQ, |KQ|, n) && IsMatrix(KZ, |KQ|, n)
    requires forall c | 0 <= c < |KQ| :: KQ[c] == Apply(C, KZ[c])
    ensures Combination(KQ, h, n) == Apply(C, Combination(KZ, h, n))
  {
    hide Dot;
    forall i | 0 <= i < n
      ensures Combination(KQ, h, n)[i] == Apply(C, Combination(KZ, h, n))[i]
    {
      ApplyCombination(C, KZ, h, n, i);
      PreconditionedRow(C, KQ, KZ, n, i);
    }
  }

  lemma PreconditionedRow(C: seq<Vec>, KQ: seq<Vec>, KZ: seq<Vec>, n: nat, i: nat)
    requires IsMatrix(C, n, n) && IsMatrix(KQ, |KQ|, n) && IsMatrix(KZ, |KQ|, n) && i < n
    requires forall c | 0 <= c < |KQ| :: KQ[c] == Apply(C, KZ[c])
    ensures Apply(KZ, C[i]) == Column(KQ, i)
  {
    hide DotTo;
    forall c | 0 <= c < |KQ|
      ensures Dot(KZ[c], C[i]) == KQ[c][i]
    {
      DotCommutes(KZ[c], C[i], n);
    }
  }

  /** The last two slots of Z_ are the residuals of x and x_1. */
  ghost predicate ResidualsHold(A: seq<Vec>, b: Vec, t: State, s: nat, n: nat) {
    && s >= 1 && Fits(t, s, n) && IsMatrix(A, n, n) && |b| == n
    && t.Z[s] == Minus(b, Apply(A, t.x)) && t.Z[s - 1] == Minus(b, Apply(A, t.x1))
  }

  lemma ResidualRing(r: real, a: real, b: real, u: real, y: real, v: real)
    ensures StepAt(r, a, b - u, y, b - v) == b - StepAt(r, -a, u, y, v)
  {
    assert r * ((b - u) - a * y) == r * b - r * (u - (-a) * y);
    assert (1.0 - r) * (b - v) == b - r * b - (1.0 - r) * v;
  }

  lemma ResidualStep(A: seq<Vec>, b: Vec, r: real, a: real, x: Vec, q: Vec, xp: Vec, n: nat)
    requires IsMatrix(A, n, n) && |b| == |x| == |q| == |xp| == n
    ensures Step(r, a, Minus(b, Apply(A, x)), Apply(A, q), Minus(b, Apply(A, xp))) ==
            Minus(b, Apply(A, Step(r, -a, x, q, xp)))
  {
    hide StepAt, Dot;
    ApplyStep(A, r, -a, x, q, xp);
    forall i | 0 <= i < n
      ensures StepAt(r, a, b[i] - Apply(A, x)[i], Apply(A, q)[i], b[i] - Apply(A, xp)[i]) ==
              b[i] - StepAt(r, -a, Apply(A, x)[i], Apply(A, q)[i], Apply(A, xp)[i])
    {
      ResidualRing(r, a, b[i], Apply(A, x)[i], Apply(A, q)[i], Apply(A, xp)[i]);
    }
  }

  lemma {:induction false} ChainOfResiduals(A: seq<Vec>, b: Vec, c: Coefs, zp: Vec, z: Vec, y: seq<Vec>, xp: Vec,
                                            x: Vec,
                                            q: seq<Vec>, s: nat, n: nat, k: nat)
    requires IsMatrix(A, n, n) && |b| == |z| == |zp| == |x| == |xp| == n && CoefsFit(c, s)
    requires IsMatrix(y, s, n) && IsMatrix(q, s + 1, n) && k <= s + 1
    requires z == Minus(b, Apply(A, x)) && zp == Minus(b, Apply(A, xp))
    requires forall i | 0 <= i < s :: y[i] == Apply(A, q[i])
    ensures Chain(c, zp, z, y, k) == Minus(b, Apply(A, XChain(c, xp, x, q, k)))
  {
    hide Step, Apply, Minus;
    if k >= 2 {
      ChainOfResiduals(A, b, c, zp, z, y, xp, x, q, s, n, k - 1);
      ChainOfResiduals(A, b, c, zp, z, y, xp, x, q, s, n, k - 2);
      ResidualStep(A, b, c.rho[k - 2], c.gamma[k - 2], XChain(c, xp, x, q, k - 1), q[k - 2], XChain(c, xp, x, q, k - 2),
          n);
    }
  }

  /** The combined vectors are A times the slots they update x with. */
  ghost predicate CombinesA(A: seq<Vec>, t: State, c: Coefs, s: nat, n: nat)
    requires s >= 1 && Fits(t, s, n) && IsMatrix(A, n, n) && CoefsFit(c, s)
  {
    forall k | 0 <= k < s ::
      Mixed(t.Z, t.W, c, s, n)[k] == Apply(A, NewSlots(c, t.Q, Mixed(t.Q, t.V, c, s, n), s, n)[k])
  }

  /** An outer update keeps the residual slots residuals, whatever rho and gamma are. */
  lemma UpdateKeepsResiduals(A: seq<Vec>, b: Vec, t: State, c: Coefs, s: nat, n: nat)
    requires ResidualsHold(A, b, t, s, n) && CoefsFit(c, s) && CombinesA(A, t, c, s, n)
    ensures ResidualsHold(A, b, AfterUpdate(t, c, s, n), s, n)
  {
    hide Step, Mixed, Apply, Minus, Chain, XChain;
    var q := NewSlots(c, t.Q, Mixed(t.Q, t.V, c, s, n), s, n);
    var y := Mixed(t.Z, t.W, c, s, n);
    ChainOfResiduals(A, b, c, t.Z[s - 1], t.Z[s], y, t.x1, t.x, q, s, n, s + 1);
    ChainOfResiduals(A, b, c, t.Z[s - 1], t.Z[s], y, t.x1, t.x, q, s, n, s);
  }

  /** Where rho is one, the older vector does not matter. */
  lemma StepForgets(a: real, z: Vec, y: Vec, p: Vec, p': Vec)
    requires |z| == |y| == |p| == |p'|
    ensures Step(1.0, a, z, y, p) == Step(1.0, a, z, y, p')
  {
  }

  lemma {:induction false} ChainForgets(c: Coefs, zp: Vec, zp': Vec, z: Vec, y: seq<Vec>, k: nat)
    requires 1 <= k <= |y| + 1 && |c.rho| == |c.gamma| == |y| >= 1 && |z| == |zp| == |zp'| && IsMatrix(y, |y|, |z|)
    requires c.rho[0] == 1.0
    ensures Chain(c, zp, z, y, k) == Chain(c, zp', z, y, k)
  {
    hide Step;
    if k == 2 {
      assert Chain(c, zp, z, y, 1) == z == Chain(c, zp', z, y, 1) && Chain(c, zp, z, y, 0) == zp &&
          Chain(c, zp', z, y, 0) == zp';
      StepForgets(c.gamma[0], z, y[0], zp, zp');
    } else if k > 2 {
      ChainForgets(c, zp, zp', z, y, k - 1);
      ChainForgets(c, zp, zp', z, y, k - 2);
    }
  }

  /**
   The first update of all needs only the newest slot to be a residual: its rho is one, and afterwards
   both slots are residuals, whatever Z_[smax - 1] and x_1 were.
   */
  lemma FirstUpdateMakesResiduals(A: seq<Vec>, b: Vec, t: State, c: Coefs, s: nat, n: nat)
    requires s >= 1 && Fits(t, s, n) && IsMatrix(A, n, n) && |b| == n && CoefsFit(c, s) && CombinesA(A, t, c, s, n)
    requires t.Z[s] == Minus(b, Apply(A, t.x)) && c.rho[0] == 1.0
    ensures ResidualsHold(A, b, AfterUpdate(t, c, s, n), s, n)
  {
    hide Step, Mixed, Apply, Minus, Chain, XChain;
    var q := NewSlots(c, t.Q, Mixed(t.Q, t.V, c, s, n), s, n);
    var y, r := Mixed(t.Z, t.W, c, s, n), Minus(b, Apply(A, t.x1));
    ChainOfResiduals(A, b, c, r, t.Z[s], y, t.x1, t.x, q, s, n, s + 1);
    ChainOfResiduals(A, b, c, r, t.Z[s], y, t.x1, t.x, q, s, n, s);
    ChainForgets(c, t.Z[s - 1], r, t.Z[s], y, s + 1);
    ChainForgets(c, t.Z[s - 1], r, t.Z[s], y, s);
  }

  /** With the coefficients of pre_inner that is what happens in every block. */
  lemma BlockKeepsResiduals(A: seq<Vec>, b: Vec, t: State, p: Block, e: Entry, g: seq<Vec>, d: seq<Vec>, rho: seq<real>,
                            gamma: seq<real>, myu: seq<real>, n: nat)
    requires BlockSetting(A, t, p, e, g, d, rho, gamma, myu, n) && ResidualsHold(A, b, t, p.s, n)
    ensures CoefsFit(Recorded(d, rho, gamma), p.s)
    ensures ResidualsHold(A, b, AfterUpdate(t, Recorded(d, rho, gamma), p.s, n), p.s, n)
  {
    hide InnerStep, Mixed, NewSlots, BasisRelation, Banded, Block.Shaped, AfterUpdate, Operator;
    var c := Recorded(d, rho, gamma);
    CombinedIsA(A, t, p, e, g, d, rho, gamma, myu, n, 0);
    forall k | 0 <= k < p.s
      ensures Mixed(t.Z, t.W, c, p.s, n)[k] == Apply(A, NewSlots(c, t.Q, Mixed(t.Q, t.V, c, p.s, n), p.s, n)[k])
    {
      CombinedIsA(A, t, p, e, g, d, rho, gamma, myu, n, k);
    }
    UpdateKeepsResiduals(A, b, t, c, p.s, n);
  }

  /** What happens between two outer updates: new bases and new coefficients, computed from the slots. */
  datatype Plan = Plan(V: seq<Vec>, W: seq<Vec>, c: Coefs)

  type Planner = (seq<Vec>, seq<Vec>, seq<Vec>, seq<Vec>) -> Plan

  ghost predicate PlansFit(f: Planner, s: nat, n: nat) {
    forall Q, V, Z, W :: var l := f(Q, V, Z, W);
      IsMatrix(l.V, s + 1, n) && IsMatrix(l.W, s + 1, n) && CoefsFit(l.c, s)
  }

  function PlanOf(t: State, f: Planner): Plan {
    f(t.Q, t.V, t.Z, t.W)
  }

  function Prepared(t: State, f: Planner): State {
    t.(V := PlanOf(t, f).V, W := PlanOf(t, f).W)
  }

  /** m outer iterations with update_cacg_opt. */
  ghost function Run(t: State, f: Planner, s: nat, n: nat, m: nat): (t': State)
    requires s >= 1 && Fits(t, s, n) && PlansFit(f, s, n)
    ensures Fits(t', s, n)
  {
    if m == 0 then t
    else
      var u := Run(t, f, s, n, m - 1);
      AfterUpdate(Prepared(u, f), PlanOf(u, f).c, s, n)
  }

  /** m pairs of outer iterations with update_cacg_opt_nox and update_cacg_opt_x. */
  ghost function DeferredRun(t: State, f: Planner, s: nat, n: nat, m: nat): (t': State)
    requires s >= 1 && Fits(t, s, n) && PlansFit(f, s, n)
    ensures Fits(t', s, n)
  {
    if m == 0 then t
    else
      var u := DeferredRun(t, f, s, n, m - 1);
      var v := AfterNox(Prepared(u, f), PlanOf(u, f).c, s, n);
      AfterLate(Prepared(v, f), PlanOf(v, f).c, PlanOf(u, f).c, s, n)
  }

  /** One pair: leaving x behind and catching up gives the same state as two plain updates. */
  lemma DeferredPair(u: State, f: Planner, s: nat, n: nat)
    requires s >= 1 && Fits(u, s, n) && PlansFit(f, s, n)
    ensures var v := AfterNox(Prepared(u, f), PlanOf(u, f).c, s, n);
            var w := AfterUpdate(Prepared(u, f), PlanOf(u, f).c, s, n);
            AfterLate(Prepared(v, f), PlanOf(v, f).c, PlanOf(u, f).c, s, n) ==
                AfterUpdate(Prepared(w, f), PlanOf(w, f).c, s, n)
  {
    hide Mixed, NewSlots, XChain;
    var v := AfterNox(Prepared(u, f), PlanOf(u, f).c, s, n);
    var w := AfterUpdate(Prepared(u, f), PlanOf(u, f).c, s, n);
    assert PlanOf(v, f) == PlanOf(w, f);
    assert AfterX(Prepared(v, f), PlanOf(u, f).c, v.Q, s, n) == Prepared(w, f);
  }

  /** Whole runs agree. */
  lemma {:induction false} DeferredRunIsRun(t: State, f: Planner, s: nat, n: nat, m: nat)
    requires s >= 1 && Fits(t, s, n) && PlansFit(f, s, n)
    ensures DeferredRun(t, f, s, n, m) == Run(t, f, s, n, 2 * m)
  {
    hide AfterUpdate, AfterNox, AfterLate, Prepared, PlanOf;
    if m > 0 {
      DeferredRunIsRun(t, f, s, n, m - 1);
      DeferredPair(Run(t, f, s, n, 2 * m - 2), f, s, n);
    }
  }

  lemma ResidualsFit(A: seq<Vec>, b: Vec, t: State, s: nat, n: nat)
    requires ResidualsHold(A, b, t, s, n)
    ensures s >= 1 && Fits(t, s, n) && IsMatrix(A, n, n)
  {
  }

  lemma PreparedKeeps(A: seq<Vec>, b: Vec, t: State, f: Planner, s: nat, n: nat)
    requires ResidualsHold(A, b, t, s, n) && PlansFit(f, s, n)
    ensures ResidualsHold(A, b, Prepared(t, f), s, n) && CoefsFit(PlanOf(t, f).c, s)
  {
    hide Apply, Minus;
  }

  /** Residuals stay residuals over whole runs in which every combined vector is A times its q. */
  lemma {:induction false} RunKeepsResiduals(A: seq<Vec>, b: Vec, t: State, f: Planner, s: nat, n: nat, m: nat)
    requires ResidualsHold(A, b, t, s, n) && PlansFit(f, s, n)
    requires forall u: State | Fits(u, s, n) && ResidualsHold(A, b, u, s, n) ::
               Fits(Prepared(u, f), s, n) && CombinesA(A, Prepared(u, f), PlanOf(u, f).c, s, n)
    ensures ResidualsHold(A, b, Run(t, f, s, n, m), s, n)
  {
    hide AfterUpdate, CombinesA, Prepared, PlanOf, IsMatrix, CoefsFit, ResidualsHold;
    ResidualsFit(A, b, t, s, n);
    if m > 0 {
      RunKeepsResiduals(A, b, t, f, s, n, m - 1);
      var u := Run(t, f, s, n, m - 1);
      PreparedKeeps(A, b, u, f, s, n);
      UpdateKeepsResiduals(A, b, Prepared(u, f), PlanOf(u, f).c, s, n);
    }
  }
}
