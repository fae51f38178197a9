/**
 From one block to the next (jupiter/cacg.c): if the small matrices are filled from what the last block
 recorded, the bases are built from the newest slots and the Gram matrix from the tables of
 calc_GramMat_local, the next block is one of the same run.
 */
module CacgNext {
  import opened Vectors
  import opened CacgCoordinates
  import opened CacgUpdate
  import opened CacgTheorems
  import opened ConjugateGradients
  import opened CacgRun
  import opened CacgGram

  /** x / (rho gamma). */
  function Per(x: real, rho: real, gamma: real): real {
    Over(x, rho * gamma)
  }

  /** Column c of T: A times direction c, from the recurrence that made residual c + 1. */
  function TFrom(s: nat, rho: seq<real>, gamma: seq<real>, r: nat, c: nat): real
    requires |rho| == |gamma| == s && r < s && c < s
  {
    if r == c then Over(1.0, gamma[c])
    else if r == c + 1 then Per(-1.0, rho[c], gamma[c])
    else if r + 1 == c then Per(1.0 - rho[c], rho[c], gamma[c])
    else 0.0
  }

  /** The small matrices of the block after a. */
  ghost predicate Filled(p: Block, a: Turn, s: nat)
    requires |a.rho| == |a.gamma| == s >= 1
  {
    && p.Valid() && p.s == s && p.Shaped()
    && p.e1e1[0][0] == 1.0 && p.rho0 == a.rho[s - 1] && p.gamma0 == a.gamma[s - 1]
    && (forall r, c | 0 <= r < s && 0 <= c < s :: p.T[r][c] == TFrom(s, a.rho, a.gamma, r, c))
    && (forall r, c | 0 <= r <= s && 0 <= c < s && r > c + 1 :: p.B[r][c] == 0.0)
  }

  /** The bases start from the newest slots, and B says how A maps one vector of V to those of W. */
  ghost predicate Based(S: System, t: State, B: seq<Vec>, s: nat)
    requires S.Shaped() && s >= 1 && Fits(t, s, S.n) && IsMatrix(B, s + 1, s)
  {
    && t.V[0] == t.Q[s] && t.W[0] == t.Z[s]
    && forall c | 0 <= c < s :: Apply(S.A, t.V[c]) == Combination(t.W, Column(B, c), S.n)
  }

  /** A vector with three entries next to each other. */
  function Three(n: nat, c: nat, a: real, b: real, d: real): (v: Vec)
    requires c >= 1
    ensures |v| == n
    ensures forall i | 0 <= i < n ::
            v[i] == if i == c - 1 then a else if i == c then b else if i == c + 1 then d else 0.0
  {
    Plus(Scaled(1.0, Plus(Scaled(a, Unit(n, c - 1)), Scaled(b, Unit(n, c)))), Scaled(d, Unit(n, c + 1)))
  }

  lemma CombinationThree(K: seq<Vec>, n: nat, c: nat, a: real, b: real, d: real)
    requires c >= 1 && c + 1 < |K| && IsMatrix(K, |K|, n)
    ensures Combination(K, Three(|K|, c, a, b, d), n) ==
            Plus(Scaled(1.0, Plus(Scaled(a, K[c - 1]), Scaled(b, K[c]))), Scaled(d, K[c + 1]))
  {
    var N, T := |K|, Transposed(K, n);
    ApplyPlusScaled(T, 1.0, Plus(Scaled(a, Unit(N, c - 1)), Scaled(b, Unit(N, c))), d, Unit(N, c + 1));
    ApplyPlusScaled(T, a, Unit(N, c - 1), b, Unit(N, c));
    CombinationUnit(K, n, c - 1);
    CombinationUnit(K, n, c);
    CombinationUnit(K, n, c + 1);
  }

  lemma SolveRing(rho: real, gamma: real, w: real, z: real, y: real, p: real, a: real, b: real, d: real, rg: real)
    requires w == StepAt(rho, gamma, z, y, p) && rg == rho * gamma && rg != 0.0
    requires a * rg == 1.0 - rho && b * gamma == 1.0 && d * rg == -1.0
    ensures y == 1.0 * (a * p + b * z) + d * w
  {
    var x := a * p + b * z + d * w - y;
    assert x * rg == (a * rg) * p + (b * gamma) * rho * z + (d * rg) * w - rg * y;
    assert w == rho * z - rg * y + p - rho * p by {
      assert rho * (z - gamma * y) == rho * z - rho * gamma * y;
      assert (1.0 - rho) * p == p - rho * p;
    }
    assert (1.0 - rho) * p == p - rho * p;
    assert x * rg == 0.0;
    if x != 0.0 {
      NonzeroProduct(x, rg);
    }
  }

  /** The recurrence of one step, solved for A q. */
  lemma SolvedStep(rho: real, gamma: real, w: Vec, z: Vec, y: Vec, p: Vec, a: real, b: real, d: real)
    requires |w| == |z| == |y| == |p| && w == Step(rho, gamma, z, y, p) && rho != 0.0 && gamma != 0.0
    requires a == Per(1.0 - rho, rho, gamma) && b == Over(1.0, gamma) && d == Per(-1.0, rho, gamma)
    ensures y == Plus(Scaled(1.0, Plus(Scaled(a, p), Scaled(b, z))), Scaled(d, w))
  {
    hide StepAt, Over;
    NonzeroProduct(rho, gamma);
    OverTimes(1.0 - rho, rho * gamma);
    OverTimes(1.0, gamma);
    OverTimes(-1.0, rho * gamma);
    var v := Plus(Scaled(1.0, Plus(Scaled(a, p), Scaled(b, z))), Scaled(d, w));
    forall i | 0 <= i < |y|
      ensures y[i] == v[i]
    {
      SolveRing(rho, gamma, w[i], z[i], y[i], p[i], a, b, d, rho * gamma);
    }
    assert y == v;
  }

  /** The operator's columns of old directions ... */
  lemma OldEntry(p: Block, r: nat, c: nat)
    requires p.Valid() && p.Shaped() && r < p.N() && c < p.s
    ensures Operator(p)[r][c] ==
            if r < p.s then p.T[r][c] else if r == p.s && c == p.s - 1 then Over(-p.e1e1[0][0], p.rho0 * p.gamma0)
                else 0.0
  {
    assert Operator(p)[r][c] == TEntry(p, r, c) + BEntry(p, r, c);
  }

  /** ... and of new vectors. */
  lemma NewEntry(p: Block, r: nat, c: nat)
    requires p.Valid() && p.Shaped() && r < p.N() && p.s <= c < 2 * p.s
    ensures Operator(p)[r][c] == if r < p.s then 0.0 else p.B[r - p.s][c - p.s]
  {
    assert Operator(p)[r][c] == TEntry(p, r, c) + BEntry(p, r, c);
  }

  /** The three coefficients with which A maps old direction c. */
  ghost predicate Coefficients(a: Turn, c: nat, x: real, y: real, w: real)
    requires c < |a.rho| == |a.gamma|
  {
    && x == Per(1.0 - a.rho[c], a.rho[c], a.gamma[c]) && y == Over(1.0, a.gamma[c])
    && w == Per(-1.0, a.rho[c], a.gamma[c])
  }

  lemma OldColumn(p: Block, a: Turn, s: nat, c: nat, x: real, y: real, w: real)
    requires |a.rho| == |a.gamma| == s >= 1 && Filled(p, a, s) && 1 <= c < s && Coefficients(a, c, x, y, w)
    ensures Column(Operator(p), c) == Three(p.N(), c, x, y, w)
  {
    var v := Three(p.N(), c, x, y, w);
    assert Over(-p.e1e1[0][0], p.rho0 * p.gamma0) == Per(-1.0, p.rho0, p.gamma0);
    hide Over, Per, Three, Operator, Block.Shaped;
    forall r | 0 <= r < p.N()
      ensures Operator(p)[r][c] == v[r]
    {
      OldEntry(p, r, c);
    }
  }

  lemma NewColumn(p: Block, c: nat)
    requires p.Valid() && p.Shaped() && p.s <= c < 2 * p.s
    ensures Column(Operator(p), c) == Zeros(p.s) + Column(p.B, c - p.s)
  {
    hide Operator, Block.Shaped;
    var v := Zeros(p.s) + Column(p.B, c - p.s);
    forall r | 0 <= r < p.N()
      ensures Operator(p)[r][c] == v[r]
    {
      NewEntry(p, r, c);
    }
  }

  /** Coordinates that refer to the new part of a basis only. */
  lemma NewPart(P: seq<Vec>, R: seq<Vec>, s: nat, h: Vec, n: nat)
    requires IsMatrix(P, s + 1, n) && IsMatrix(R, s + 1, n) && |h| == s + 1
    ensures IsMatrix(Basis(P, R, s), 2 * s + 1, n)
    ensures Combination(Basis(P, R, s), Zeros(s) + h, n) == Combination(R, h, n)
  {
    hide DotTo;
    var K := Basis(P, R, s);
    forall i | 0 <= i < n
      ensures Dot(Column(K, i), Zeros(s) + h) == Dot(Column(R, i), h)
    {
      assert Column(K, i) == Column(P[..s], i) + Column(R, i);
      DotOfSums(Column(P[..s], i), Column(R, i), Zeros(s), h, s + 1);
      DotOfZeros(Column(P[..s], i), s);
    }
  }

  /** The columns of new vectors. */
  lemma NewRelation(S: System, t: State, p: Block, s: nat, c: nat)
    requires S.Shaped() && p.Valid() && p.Shaped() && p.s == s && Fits(t, s, S.n) && Based(S, t, p.B, s)
    requires s <= c < 2 * s
    ensures IsMatrix(Basis(t.Z, t.W, s), 2 * s + 1, S.n)
    ensures Apply(S.A, Basis(t.Q, t.V, s)[c]) == Combination(Basis(t.Z, t.W, s), Column(Operator(p), c), S.n)
  {
    hide Apply, Combination, Operator;
    NewColumn(p, c);
    NewPart(t.Z, t.W, s, Column(p.B, c - s), S.n);
  }

  /** The columns of old directions, all but the oldest. */
  lemma OldRelation(S: System, a: Turn, t: State, p: Block, s: nat, c: nat)
    requires S.Shaped() && s >= 1 && |a.rho| == |a.gamma| == s && p.Valid() && p.s == s && Filled(p, a, s)
    requires Fits(t, s, S.n) && 1 <= c < s
    requires t.W[0] == t.Z[s] && a.rho[c] != 0.0 && a.gamma[c] != 0.0
    requires t.Z[c + 1] == Step(a.rho[c], a.gamma[c], t.Z[c], Apply(S.A, t.Q[c]), t.Z[c - 1])
    ensures IsMatrix(Basis(t.Z, t.W, s), 2 * s + 1, S.n)
    ensures Apply(S.A, Basis(t.Q, t.V, s)[c]) == Combination(Basis(t.Z, t.W, s), Column(Operator(p), c), S.n)
  {
    hide Apply, Combination, Operator, Over, Per, Three, Step, Filled, Plus, Scaled;
    var K := Basis(t.Z, t.W, s);
    BasisIsMatrix(t.Z, t.W, s, S.n);
    var rho, gamma := a.rho[c], a.gamma[c];
    var x, y, w := Per(1.0 - rho, rho, gamma), Over(1.0, gamma), Per(-1.0, rho, gamma);
    OldColumn(p, a, s, c, x, y, w);
    SolvedStep(rho, gamma, t.Z[c + 1], t.Z[c], Apply(S.A, t.Q[c]), t.Z[c - 1], x, y, w);
    NeighboursOf(t, s, S.n, c, x, y, w);
  }

  lemma NeighboursOf(t: State, s: nat, n: nat, c: nat, x: real, y: real, w: real)
    requires s >= 1 && Fits(t, s, n) && 1 <= c < s && t.W[0] == t.Z[s] && IsMatrix(Basis(t.Z, t.W, s), 2 * s + 1, n)
    ensures Combination(Basis(t.Z, t.W, s), Three(2 * s + 1, c, x, y, w), n) ==
            Plus(Scaled(1.0, Plus(Scaled(x, t.Z[c - 1]), Scaled(y, t.Z[c]))), Scaled(w, t.Z[c + 1]))
  {
    hide Combination, Three, Plus, Scaled;
    var K := Basis(t.Z, t.W, s);
    CombinationThree(K, n, c, x, y, w);
    assert K[c - 1] == t.Z[c - 1] && K[c] == t.Z[c] && K[c + 1] == t.Z[c + 1];
  }

  /** Block b starts from what block a left: bases, small matrices, Gram matrix and scalars. */
  ghost predicate Continues(S: System, a: Turn, b: Turn, s: nat, Gkk1: seq<Vec>, Gkk: seq<Vec>) {
    && Rebuilt(S, a, b.t, s) && Filled(b.p, a, s) && Based(S, b.t, b.p.B, s)
    && TablesOf(b.t, s, Gkk1, Gkk, S.n) && b.p.Gk == Assembled(s, a.myu, Gkk1, Gkk)
    && b.e == Entry(a.e.k + 1, a.rho[s - 1], a.gamma[s - 1], a.myu[s - 1])
    && Inner(b.p, b.e, b.g, b.d, b.rho, b.gamma, b.myu, s)
    && b.g[0] == Unit(b.p.N(), s - 1) && b.d[0] == Apply(Operator(b.p), b.g[0])
  }

  lemma {:induction false} LastScalars(bs: seq<Turn>, s: nat, n: nat, c: nat)
    requires |bs| > 0 && (forall k: nat | k < |bs| :: bs[k].Sized(s, n)) && c < s
    ensures var h, b := History(bs, s, n), bs[|bs| - 1];
            h.rho[|h.rho| - s + c] == b.rho[c] && h.gamma[|h.rho| - s + c] == b.gamma[c]
  {
    hide AfterUpdate;
  }

  /** No step of the last block has a rho or gamma that is zero. */
  lemma LastSound(S: System, bs: seq<Turn>, s: nat, c: nat)
    requires StillRunning(S, bs, s) && c < s
    ensures bs[|bs| - 1].rho[c] != 0.0 && bs[|bs| - 1].gamma[c] != 0.0
  {
    hide Ready, Follows, AfterUpdate, CgRun, Conjugate, Symmetric, Definite, System.Mu, System.Nu;
    var h := History(bs, s, S.n);
    RunIsCg(S, bs, s);
    RunIsConjugate(S, bs, s, |h.rho|);
    LastScalars(bs, s, S.n, c);
    assert NoBreakdown(S, h, |h.rho| - s + c);
  }

  /** The bases and the small matrices fit together. */
  lemma NextRelation(S: System, a: Turn, t: State, p: Block, s: nat)
    requires S.Shaped() && a.Sized(s, S.n) && Ready(S, a, s) && Rebuilt(S, a, t, s) && Filled(p, a, s)
    requires Based(S, t, p.B, s)
    requires forall c | 0 <= c < s :: a.rho[c] != 0.0 && a.gamma[c] != 0.0
    ensures IsMatrix(Basis(t.Q, t.V, s), 2 * s + 1, S.n) && IsMatrix(Basis(t.Z, t.W, s), 2 * s + 1, S.n)
    ensures BasisRelation(S.A, p, 1, Basis(t.Q, t.V, s), Basis(t.Z, t.W, s), S.n)
  {
    hide Ready, Turn.After, Apply, Combination, Operator, Step, Block.Shaped, Basis;
    BasisIsMatrix(t.Q, t.V, s, S.n);
    BasisIsMatrix(t.Z, t.W, s, S.n);
    forall c: nat | 1 <= c < 2 * s
      ensures Apply(S.A, Basis(t.Q, t.V, s)[c]) == Combination(Basis(t.Z, t.W, s), Column(Operator(p), c), S.n)
    {
      if c < s {
        BlockVectors(S, a, s, c);
        OldRelation(S, a, t, p, s, c);
      } else {
        NewRelation(S, t, p, s, c);
      }
    }
  }

  lemma FilledIsBanded(p: Block, a: Turn, s: nat)
    requires |a.rho| == |a.gamma| == s >= 1 && Filled(p, a, s)
    ensures p.Valid() && p.Shaped() && Banded(p)
  {
    hide Over;
  }

  /** Nothing more is needed: the next block belongs to the same run. */
  lemma RunContinues(S: System, bs: seq<Turn>, b: Turn, s: nat, Gkk1: seq<Vec>, Gkk: seq<Vec>)
    requires StillRunning(S, bs, s) && Continues(S, bs[|bs| - 1], b, s, Gkk1, Gkk)
    ensures Turns(S, bs + [b], s)
  {
    hide Follows, AfterUpdate, Symmetric, Definite, Filled, Assembled, GramOf, Block.Shaped, Banded, InnerStep,
         Operator, Apply, TablesOf;
    var a := bs[|bs| - 1];
    forall c: nat | c < s
      ensures a.rho[c] != 0.0 && a.gamma[c] != 0.0
    {
      LastSound(S, bs, s, c);
    }
    NextIsReady(S, bs, a, b, s, Gkk1, Gkk);
    NextFollows(S, a, b, s, Gkk1, Gkk);
    var cs := bs + [b];
    hide Ready, Turn.Sized;
    forall k: nat | 0 < k < |cs|
      ensures Follows(cs[k - 1], cs[k], s, S.n)
    {
      if k < |bs| {
        assert Follows(bs[k - 1], bs[k], s, S.n);
      }
    }
  }

  lemma NextFollows(S: System, a: Turn, b: Turn, s: nat, Gkk1: seq<Vec>, Gkk: seq<Vec>)
    requires a.Sized(s, S.n) && Continues(S, a, b, s, Gkk1, Gkk)
    ensures Follows(a, b, s, S.n)
  {
    hide AfterUpdate, Filled, Based, TablesOf, Inner;
  }

  lemma NextIsReady(S: System, bs: seq<Turn>, a: Turn, b: Turn, s: nat, Gkk1: seq<Vec>, Gkk: seq<Vec>)
    requires StillRunning(S, bs, s) && a == bs[|bs| - 1] && Continues(S, a, b, s, Gkk1, Gkk)
    requires forall c: nat | c < s :: a.rho[c] != 0.0 && a.gamma[c] != 0.0
    ensures b.Sized(s, S.n) && Ready(S, b, s)
  {
    hide Follows, AfterUpdate, Symmetric, Definite, Assembled, InnerStep, Operator, Apply, History;
    NextGram(S, bs, s, b.t, Gkk1, Gkk);
    SlotsPreconditioned(S, a, s);
    NextRelation(S, a, b.t, b.p, s);
    FilledIsBanded(b.p, a, s);
  }
}
