/**
 The preconditioned three-term CG method on long vectors, which every block of the kernel in
 jupiter/cacg.c carries out in coordinates: its residuals are mutually conjugate, none of its
 quotients has a zero divisor before the residual is zero, and it ends within as many steps as there
 are unknowns.
 */
module ConjugateGradients {
  import opened Vectors
  import opened CacgCoordinates

  ghost predicate Symmetric(M: seq<Vec>, n: nat) {
    IsMatrix(M, n, n) && Transposed(M, n) == M
  }

  /** The form of M vanishes on the zero vector only; which sign it has does not matter. */
  ghost predicate Definite(M: seq<Vec>, n: nat) {
    IsMatrix(M, n, n) && forall v: Vec | |v| == n && v != Zeros(n) :: Dot(v, Apply(M, v)) != 0.0
  }

  /** A system matrix, its preconditioner and the number of unknowns. */
  datatype System = System(A: seq<Vec>, C: seq<Vec>, n: nat) {
    ghost predicate Shaped() {
      IsMatrix(A, n, n) && IsMatrix(C, n, n)
    }

    ghost predicate Valid() {
      Symmetric(A, n) && Symmetric(C, n) && Definite(A, n) && Definite(C, n)
    }

    /** <C u, v>; myu of the method where u and v are the same residual. */
    ghost function Mu(u: Vec, v: Vec): real
      requires Shaped() && |u| == |v| == n
    {
      Dot(Apply(C, u), v)
    }

    /** <C u, A C v>; nyu of the method where u and v are the same residual. */
    ghost function Nu(u: Vec, v: Vec): real
      requires Shaped() && |u| == |v| == n
    {
      Dot(Apply(C, u), Apply(A, Apply(C, v)))
    }
  }

  /** The residual before the first one, residuals 0 .. m, and the scalars of the m steps between them. */
  datatype Steps = Steps(z: seq<Vec>, rho: seq<real>, gamma: seq<real>) {
    ghost predicate Fits(n: nat) {
      IsMatrix(z, |rho| + 2, n) && |gamma| == |rho|
    }

    function R(j: nat): Vec
      requires j + 1 < |z|
    {
      z[j + 1]
    }
  }

  /** The divisor of rho in a step after the first. */
  function RhoDivisor(gamma: real, gamma1: real, myu: real, myu1: real, rho: real): real {
    1.0 - Over(Over(Over(gamma, gamma1) * myu, myu1), rho)
  }

  /** Step j of the method. */
  ghost predicate CgStep(S: System, t: Steps, j: nat)
    requires S.Shaped() && t.Fits(S.n) && j < |t.rho|
  {
    && t.z[j + 2] == Step(t.rho[j], t.gamma[j], t.z[j + 1], Apply(S.A, Apply(S.C, t.z[j + 1])), t.z[j])
    && t.gamma[j] == Over(S.Mu(t.R(j), t.R(j)), S.Nu(t.R(j), t.R(j)))
    && (j == 0 ==> t.rho[j] == 1.0)
    && (j > 0 ==>
          t.rho[j] ==
          NextRho(false, t.gamma[j], t.gamma[j - 1], S.Mu(t.R(j), t.R(j)), S.Mu(t.R(j - 1), t.R(j - 1)), t.rho[j - 1]))
  }

  /** A run of the method, of any length. */
  ghost predicate CgRun(S: System, t: Steps) {
    && S.Shaped() && t.Fits(S.n)
    && forall j: nat | j < |t.rho| :: CgStep(S, t, j)
  }

  /** No quotient of step j has a zero divisor. */
  ghost predicate NoBreakdown(S: System, t: Steps, j: nat)
    requires S.Shaped() && t.Fits(S.n) && j < |t.rho|
  {
    && S.Mu(t.R(j), t.R(j)) != 0.0 && S.Nu(t.R(j), t.R(j)) != 0.0
    && t.rho[j] != 0.0 && t.gamma[j] != 0.0
    && (j > 0 ==> RhoDivisor(t.gamma[j], t.gamma[j - 1], S.Mu(t.R(j), t.R(j)), S.Mu(t.R(j - 1), t.R(j - 1)),
       t.rho[j - 1]) != 0.0)
  }

  /** Any two of the residuals 0 .. m are conjugate. */
  ghost predicate Conjugate(S: System, t: Steps, m: nat)
    requires S.Shaped() && t.Fits(S.n) && m <= |t.rho|
  {
    forall i: nat, j: nat | i < j <= m :: S.Mu(t.R(i), t.R(j)) == 0.0
  }

  lemma MoveAcross(M: seq<Vec>, n: nat, u: Vec, v: Vec)
    requires Symmetric(M, n) && |u| == |v| == n
    ensures Dot(u, Apply(M, v)) == Dot(Apply(M, u), v)
  {
    Adjoint(u, M, v);
  }

  lemma MuSymmetric(S: System, u: Vec, v: Vec)
    requires S.Shaped() && Symmetric(S.C, S.n) && |u| == |v| == S.n
    ensures S.Mu(u, v) == S.Mu(v, u)
  {
    MoveAcross(S.C, S.n, u, v);
    DotCommutes(u, Apply(S.C, v), S.n);
  }

  lemma NuSymmetric(S: System, u: Vec, v: Vec)
    requires S.Shaped() && Symmetric(S.A, S.n) && |u| == |v| == S.n
    ensures S.Nu(u, v) == S.Nu(v, u)
  {
    var a, b := Apply(S.C, u), Apply(S.C, v);
    MoveAcross(S.A, S.n, a, b);
    DotCommutes(Apply(S.A, a), b, S.n);
  }

  lemma MuNonzero(S: System, z: Vec)
    requires S.Shaped() && Definite(S.C, S.n) && |z| == S.n && z != Zeros(S.n)
    ensures S.Mu(z, z) != 0.0
  {
    DotCommutes(Apply(S.C, z), z, S.n);
  }

  lemma {:induction false} DotZeros(u: Vec, n: nat)
    requires n <= |u|
    ensures DotTo(Zeros(|u|), u, n) == 0.0
  {
    if n > 0 {
      DotZeros(u, n - 1);
    }
  }

  lemma NuNonzero(S: System, z: Vec)
    requires S.Shaped() && Definite(S.A, S.n) && |z| == S.n && S.Mu(z, z) != 0.0
    ensures S.Nu(z, z) != 0.0
  {
    if Apply(S.C, z) == Zeros(S.n) {
      DotZeros(z, S.n);
    }
  }

  /** The form of u with the next residual. */
  lemma MuStep(S: System, t: Steps, j: nat, u: Vec)
    requires S.Shaped() && t.Fits(S.n) && j < |t.rho| && CgStep(S, t, j) && |u| == S.n
    ensures S.Mu(u, t.z[j + 2]) ==
            StepAt(t.rho[j], t.gamma[j], S.Mu(u, t.z[j + 1]), S.Nu(u, t.z[j + 1]), S.Mu(u, t.z[j]))
  {
    hide Step, StepAt, NextRho, Apply, Over;
    DotStep(Apply(S.C, u), t.rho[j], t.gamma[j], t.z[j + 1], Apply(S.A, Apply(S.C, t.z[j + 1])), t.z[j], S.n);
  }

  lemma CouplingRing(rho: real, gamma: real, e: real, p: real, w: real)
    requires rho == 1.0 || p == 0.0
    requires w == StepAt(rho, gamma, 0.0, e, p)
    ensures rho * gamma * e == -w
  {
    assert (1.0 - rho) * p == 0.0;
    assert rho * (0.0 - gamma * e) == -(rho * gamma * e);
  }

  lemma FactorZero(a: real, b: real, e: real)
    requires a * b * e == 0.0 && a != 0.0 && b != 0.0
    ensures e == 0.0
  {
    NonzeroProduct(a, b);
    if e != 0.0 {
      NonzeroProduct(a * b, e);
    }
  }

  lemma NonzeroProduct(a: real, b: real)
    requires a != 0.0 && b != 0.0
    ensures a * b != 0.0
  {
    var q := a * b;
    assert q / b == a;
  }

  /** What an earlier step says about the coupling of its residual to a later one. */
  lemma Coupling(S: System, t: Steps, i: nat, j: nat)
    requires CgRun(S, t) && Symmetric(S.C, S.n) && Symmetric(S.A, S.n) && i < j <= |t.rho|
    requires Conjugate(S, t, j)
    ensures t.rho[i] * t.gamma[i] * S.Nu(t.R(i), t.R(j)) == -(if i + 1 == j then S.Mu(t.R(j), t.R(j)) else 0.0)
  {
    hide StepAt, System.Mu, System.Nu;
    assert CgStep(S, t, i);
    MuStep(S, t, i, t.R(j));
    NuSymmetric(S, t.R(i), t.R(j));
    MuSymmetric(S, t.R(j), t.R(i));
    var before := S.Mu(t.R(j), t.z[i]);
    if i > 0 {
      MuSymmetric(S, t.R(j), t.R(i - 1));
      assert before == 0.0;
    }
    MuSymmetric(S, t.R(j), t.R(i + 1));
    CouplingRing(t.rho[i], t.gamma[i], S.Nu(t.R(j), t.R(i)), before, S.Mu(t.R(j), t.R(i + 1)));
  }

  lemma OverTimes(a: real, b: real)
    requires b != 0.0
    ensures Over(a, b) * b == a
  {
  }

  /** The divisor of rho, cleared of its quotients. */
  lemma DivisorRing(gamma: real, gamma1: real, myu: real, myu1: real, rho1: real, e: real)
    requires rho1 != 0.0 && gamma1 != 0.0 && myu1 != 0.0 && rho1 * gamma1 * e == -myu
    ensures RhoDivisor(gamma, gamma1, myu, myu1, rho1) * myu1 == myu1 + gamma * e
  {
    var a := Over(gamma, gamma1);
    var b := Over(a * myu, myu1);
    var c := Over(b, rho1);
    OverTimes(gamma, gamma1);
    OverTimes(a * myu, myu1);
    OverTimes(b, rho1);
    ThreeQuotients(a, b, c, gamma, gamma1, myu, myu1, rho1, e);
    assert (1.0 - c) * myu1 == myu1 - c * myu1;
  }

  lemma ThreeQuotients(a: real, b: real, c: real, gamma: real, gamma1: real, myu: real, myu1: real, rho1: real, e: real)
    requires a * gamma1 == gamma && b * myu1 == a * myu && c * rho1 == b && rho1 * gamma1 * e == -myu && rho1 != 0.0
    ensures c * myu1 == -(gamma * e)
  {
    var x := c * myu1 + gamma * e;
    assert c * myu1 * rho1 == a * myu by {
      assert c * myu1 * rho1 == (c * rho1) * myu1;
    }
    assert gamma * e * rho1 == -(a * myu) by {
      assert gamma * e * rho1 == a * (rho1 * gamma1 * e);
    }
    assert x * rho1 == c * myu1 * rho1 + gamma * e * rho1;
    if x != 0.0 {
      NonzeroProduct(x, rho1);
    }
  }

  lemma OwnRing(rho: real, gamma: real, myu: real, nyu: real)
    requires nyu != 0.0 && gamma == Over(myu, nyu)
    ensures StepAt(rho, gamma, myu, nyu, 0.0) == 0.0
  {
    OverTimes(myu, nyu);
  }

  lemma PreviousRing(rho: real, gamma: real, divisor: real, myu1: real, e: real)
    requires divisor != 0.0 && rho == Over(1.0, divisor) && divisor * myu1 == myu1 + gamma * e
    ensures StepAt(rho, gamma, 0.0, e, myu1) == 0.0
  {
    OverTimes(1.0, divisor);
    Reassociate(rho, divisor, myu1, 1.0);
    assert rho * (0.0 - gamma * e) + (1.0 - rho) * myu1 == myu1 - rho * (myu1 + gamma * e);
  }

  lemma Reassociate(a: real, b: real, c: real, ab: real)
    requires ab == a * b
    ensures a * (b * c) == ab * c
  {
  }

  lemma RhoIs(gamma: real, gamma1: real, myu: real, myu1: real, rho1: real)
    ensures NextRho(false, gamma, gamma1, myu, myu1, rho1) == Over(1.0, RhoDivisor(gamma, gamma1, myu, myu1, rho1))
  {
  }

  lemma ZeroRing(rho: real, gamma: real)
    ensures StepAt(rho, gamma, 0.0, 0.0, 0.0) == 0.0
  {
  }

  /** A step without breakdown makes a residual that is conjugate to all before it. */
  lemma NextIsConjugate(S: System, t: Steps, j: nat, i: nat)
    requires CgRun(S, t) && Symmetric(S.C, S.n) && Symmetric(S.A, S.n) && i <= j < |t.rho|
    requires Conjugate(S, t, j) && forall k: nat | k <= j :: NoBreakdown(S, t, k)
    ensures S.Mu(t.R(i), t.R(j + 1)) == 0.0
  {
    hide StepAt, System.Mu, System.Nu, Over, RhoDivisor, NextRho, Conjugate;
    assert CgStep(S, t, j) && NoBreakdown(S, t, j) && NoBreakdown(S, t, i);
    MuStep(S, t, j, t.R(i));
    if i == j {
      if j == 0 {
        FirstRing(t.gamma[j], S.Mu(t.R(j), t.R(j)), S.Nu(t.R(j), t.R(j)), S.Mu(t.R(j), t.z[j]));
      } else {
        ConjugateAt(S, t, j, j - 1, j);
        MuSymmetric(S, t.R(j), t.R(j - 1));
        OwnRing(t.rho[j], t.gamma[j], S.Mu(t.R(j), t.R(j)), S.Nu(t.R(j), t.R(j)));
      }
    } else {
      Coupling(S, t, i, j);
      ConjugateAt(S, t, j, i, j);
      var e := S.Nu(t.R(i), t.R(j));
      if i + 1 == j {
        DivisorIs(S, t, j);
        RhoIs(t.gamma[j], t.gamma[i], S.Mu(t.R(j), t.R(j)), S.Mu(t.R(i), t.R(i)), t.rho[i]);
        PreviousRing(t.rho[j], t.gamma[j],
            RhoDivisor(t.gamma[j], t.gamma[i], S.Mu(t.R(j), t.R(j)), S.Mu(t.R(i), t.R(i)), t.rho[i]),
                     S.Mu(t.R(i), t.R(i)), e);
      } else {
        FactorZero(t.rho[i], t.gamma[i], e);
        ConjugateAt(S, t, j, i, j - 1);
        ZeroRing(t.rho[j], t.gamma[j]);
      }
    }
  }

  lemma FirstRing(gamma: real, myu: real, nyu: real, p: real)
    requires nyu != 0.0 && gamma == Over(myu, nyu)
    ensures StepAt(1.0, gamma, myu, nyu, p) == 0.0
  {
    OverTimes(myu, nyu);
  }

  lemma ConjugateAt(S: System, t: Steps, m: nat, i: nat, j: nat)
    requires S.Shaped() && t.Fits(S.n) && m <= |t.rho| && Conjugate(S, t, m) && i < j <= m
    ensures S.Mu(t.R(i), t.R(j)) == 0.0
  {
  }

  /** The divisor of rho in step j, cleared of its quotients. */
  lemma DivisorIs(S: System, t: Steps, j: nat)
    requires CgRun(S, t) && Symmetric(S.C, S.n) && Symmetric(S.A, S.n) && 0 < j < |t.rho|
    requires Conjugate(S, t, j) && NoBreakdown(S, t, j - 1)
    ensures RhoDivisor(t.gamma[j], t.gamma[j - 1], S.Mu(t.R(j), t.R(j)), S.Mu(t.R(j - 1), t.R(j - 1)),
            t.rho[j - 1]) * S.Mu(t.R(j - 1), t.R(j - 1)) ==
            S.Mu(t.R(j - 1), t.R(j - 1)) + t.gamma[j] * S.Nu(t.R(j - 1), t.R(j))
  {
    hide System.Mu, System.Nu, Over, RhoDivisor, Conjugate;
    Coupling(S, t, j - 1, j);
    DivisorRing(t.gamma[j], t.gamma[j - 1], S.Mu(t.R(j), t.R(j)), S.Mu(t.R(j - 1), t.R(j - 1)), t.rho[j - 1],
        S.Nu(t.R(j - 1), t.R(j)));
  }

  /** How far x moves in step j, as a vector. */
  ghost function Move(S: System, t: Steps, j: nat): (d: Vec)
    requires S.Shaped() && t.Fits(S.n) && j <= |t.rho|
    ensures |d| == S.n
  {
    if j == 0 then Zeros(S.n)
    else NextMove(t.rho[j - 1], t.gamma[j - 1], Move(S, t, j - 1), Apply(S.C, t.R(j - 1)))
  }

  /** x moves along q, and against or along its last move. */
  function NextMove(rho: real, gamma: real, d: Vec, q: Vec): (e: Vec)
    requires |d| == |q|
    ensures |e| == |d|
  {
    Plus(Scaled(rho - 1.0, d), Scaled(rho * gamma, q))
  }

  lemma NoTerms(a: real, d: real, b: real, e: real)
    requires d == 0.0 && e == 0.0
    ensures a * d + b * e == 0.0
  {
  }

  /** What is orthogonal to C times all residuals so far is orthogonal to every move so far. */
  lemma {:induction false} MoveSpanned(S: System, t: Steps, j: nat, u: Vec)
    requires S.Shaped() && t.Fits(S.n) && j <= |t.rho| && |u| == S.n
    requires forall i: nat | i < j :: S.Mu(t.R(i), u) == 0.0
    ensures Dot(Move(S, t, j), u) == 0.0
  {
    hide DotTo;
    if j == 0 {
      DotZeros(u, S.n);
    } else {
      MoveSpanned(S, t, j - 1, u);
      var a, b, v, w := t.rho[j - 1] - 1.0, t.rho[j - 1] * t.gamma[j - 1], Move(S, t, j - 1), Apply(S.C, t.R(j - 1));
      assert Move(S, t, j) == NextMove(t.rho[j - 1], t.gamma[j - 1], v, w);
      DotPlusScaled(u, a, v, b, w, S.n);
      DotCommutes(v, u, S.n);
      DotCommutes(w, u, S.n);
      DotCommutes(Move(S, t, j), u, S.n);
      assert S.Mu(t.R(j - 1), u) == 0.0;
      NoTerms(a, Dot(u, v), b, Dot(u, w));
    }
  }

  lemma ApplyZeros(M: seq<Vec>, n: nat)
    requires IsMatrix(M, |M|, n)
    ensures Apply(M, Zeros(n)) == Zeros(|M|)
  {
    forall i | 0 <= i < |M|
      ensures Apply(M, Zeros(n))[i] == 0.0
    {
      DotZeros(M[i], n);
      DotCommutes(Zeros(n), M[i], n);
    }
  }

  lemma MoveRing(rho: real, gamma: real, z: real, y: real, p: real, e: real, a: real, b: real)
    requires (rho == 1.0 && e == 0.0) || e == p - z
    requires a == rho - 1.0 && b == rho * gamma
    ensures z - StepAt(rho, gamma, z, y, p) == a * e + b * y
  {
    assert rho * (z - gamma * y) == rho * z - rho * gamma * y;
    assert (rho - 1.0) * (p - z) == rho * p - rho * z - p + z;
    assert (1.0 - rho) * p == p - rho * p;
  }

  lemma NextMoveMoves(A: seq<Vec>, rho: real, gamma: real, d: Vec, q: Vec, z: Vec, p: Vec)
    requires |d| == |q| == |z| == |p| && IsMatrix(A, |z|, |z|)
    requires (rho == 1.0 && Apply(A, d) == Zeros(|z|)) || Apply(A, d) == Minus(p, z)
    ensures Minus(z, Step(rho, gamma, z, Apply(A, q), p)) == Apply(A, NextMove(rho, gamma, d, q))
  {
    hide StepAt, DotTo;
    var a, b, w, e := rho - 1.0, rho * gamma, Apply(A, q), Apply(A, d);
    ApplyPlusScaled(A, a, d, b, q);
    var moved, left := Plus(Scaled(a, e), Scaled(b, w)), Minus(z, Step(rho, gamma, z, w, p));
    forall i | 0 <= i < |z|
      ensures left[i] == moved[i]
    {
      MoveRing(rho, gamma, z[i], w[i], p[i], e[i], a, b);
    }
    assert left == moved;
  }

  /** A residual and the next differ by A times the move. */
  lemma {:induction false} MoveMoves(S: System, t: Steps, j: nat)
    requires CgRun(S, t) && 0 < j <= |t.rho|
    ensures Minus(t.R(j - 1), t.R(j)) == Apply(S.A, Move(S, t, j))
  {
    hide Step, Apply, NextMove, Minus, NextRho, Over, System.Mu, System.Nu;
    assert CgStep(S, t, j - 1);
    var v, w := Move(S, t, j - 1), Apply(S.C, t.R(j - 1));
    if j == 1 {
      ApplyZeros(S.A, S.n);
    } else {
      MoveMoves(S, t, j - 1);
    }
    NextMoveMoves(S.A, t.rho[j - 1], t.gamma[j - 1], v, w, t.R(j - 1), t.z[j - 1]);
  }

  lemma {:induction false} DotMinus(u: Vec, v: Vec, w: Vec, n: nat)
    requires |u| == |v| == |w| && n <= |u|
    ensures DotTo(u, Minus(v, w), n) == DotTo(u, v, n) - DotTo(u, w, n)
  {
    if n > 0 {
      DotMinus(u, v, w, n - 1);
      assert u[n - 1] * (v[n - 1] - w[n - 1]) == u[n - 1] * v[n - 1] - u[n - 1] * w[n - 1];
    }
  }

  /** The last move, continued along the new direction. */
  ghost function Continued(S: System, t: Steps, j: nat): (v: Vec)
    requires S.Shaped() && t.Fits(S.n) && j < |t.rho|
    ensures |v| == S.n
  {
    Plus(Scaled(1.0, Move(S, t, j)), Scaled(t.gamma[j], Apply(S.C, t.R(j))))
  }

  lemma DotContinued(S: System, t: Steps, j: nat, u: Vec)
    requires S.Shaped() && t.Fits(S.n) && j < |t.rho| && |u| == S.n
    ensures Dot(Continued(S, t, j), u) == Dot(Move(S, t, j), u) + t.gamma[j] * S.Mu(t.R(j), u)
  {
    hide DotTo;
    var d, q := Move(S, t, j), Apply(S.C, t.R(j));
    DotPlusScaled(u, 1.0, d, t.gamma[j], q, S.n);
    DotCommutes(d, u, S.n);
    DotCommutes(q, u, S.n);
    DotCommutes(Continued(S, t, j), u, S.n);
  }

  /** A times the continued move, seen from an earlier direction. */
  lemma ContinuedAlong(S: System, t: Steps, j: nat, i: nat)
    requires CgRun(S, t) && 0 < j < |t.rho| && i <= j
    ensures S.Mu(t.R(i), Apply(S.A, Continued(S, t, j))) ==
            S.Mu(t.R(i), t.R(j - 1)) - S.Mu(t.R(i), t.R(j)) + t.gamma[j] * S.Nu(t.R(i), t.R(j))
  {
    hide DotTo, CgStep, Minus, Plus, Scaled;
    var d, q, p := Move(S, t, j), Apply(S.C, t.R(j)), Apply(S.C, t.R(i));
    ApplyPlusScaled(S.A, 1.0, d, t.gamma[j], q);
    DotPlusScaled(p, 1.0, Apply(S.A, d), t.gamma[j], Apply(S.A, q), S.n);
    MoveMoves(S, t, j);
    DotMinus(p, t.R(j - 1), t.R(j), S.n);
  }

  /** If the divisor of rho were zero, the continued move would be A-orthogonal to every direction so far. */
  lemma StuckAlong(S: System, t: Steps, j: nat, i: nat)
    requires CgRun(S, t) && S.Valid() && 0 < j < |t.rho| && i <= j && Conjugate(S, t, j)
    requires forall k: nat | k < j :: NoBreakdown(S, t, k)
    requires S.Nu(t.R(j), t.R(j)) != 0.0
    requires RhoDivisor(t.gamma[j], t.gamma[j - 1], S.Mu(t.R(j), t.R(j)), S.Mu(t.R(j - 1), t.R(j - 1)), t.rho[j - 1]) ==
             0.0
    ensures S.Mu(t.R(i), Apply(S.A, Continued(S, t, j))) == 0.0
  {
    hide System.Mu, System.Nu, Over, RhoDivisor, NextRho, Conjugate, Continued, Definite, Symmetric;
    ContinuedAlong(S, t, j, i);
    if i == j {
      assert CgStep(S, t, j);
      ConjugateAt(S, t, j, j - 1, j);
      MuSymmetric(S, t.R(j), t.R(j - 1));
      OverTimes(S.Mu(t.R(j), t.R(j)), S.Nu(t.R(j), t.R(j)));
    } else {
      ConjugateAt(S, t, j, i, j);
      assert NoBreakdown(S, t, j - 1) && NoBreakdown(S, t, i);
      if i + 1 == j {
        DivisorIs(S, t, j);
      } else {
        ConjugateAt(S, t, j, i, j - 1);
        Coupling(S, t, i, j);
        FactorZero(t.rho[i], t.gamma[i], S.Nu(t.R(i), t.R(j)));
      }
    }
  }

  /** A vector that A makes orthogonal to every direction it is made of. */
  lemma ContinuedIsNull(S: System, t: Steps, j: nat)
    requires S.Shaped() && t.Fits(S.n) && j < |t.rho|
    requires forall i: nat | i <= j :: S.Mu(t.R(i), Apply(S.A, Continued(S, t, j))) == 0.0
    ensures Dot(Continued(S, t, j), Apply(S.A, Continued(S, t, j))) == 0.0
  {
    hide System.Mu, Continued, Move, DotTo;
    var w := Apply(S.A, Continued(S, t, j));
    MoveSpanned(S, t, j, w);
    DotContinued(S, t, j, w);
    assert S.Mu(t.R(j), w) == 0.0;
  }

  lemma ContinuedNotZero(S: System, t: Steps, j: nat)
    requires S.Shaped() && t.Fits(S.n) && j < |t.rho| && Conjugate(S, t, j)
    requires S.Mu(t.R(j), t.R(j)) != 0.0 && t.gamma[j] != 0.0
    ensures Continued(S, t, j) != Zeros(S.n)
  {
    hide System.Mu, Continued, Move, DotTo, Conjugate;
    forall i: nat | i < j
      ensures S.Mu(t.R(i), t.R(j)) == 0.0
    {
      ConjugateAt(S, t, j, i, j);
    }
    MoveSpanned(S, t, j, t.R(j));
    DotContinued(S, t, j, t.R(j));
    NonzeroProduct(t.gamma[j], S.Mu(t.R(j), t.R(j)));
    DotZeros(t.R(j), S.n);
  }

  /** For definite matrices the divisor of rho is not zero. */
  lemma DivisorNonzero(S: System, t: Steps, j: nat)
    requires CgRun(S, t) && S.Valid() && 0 < j < |t.rho| && Conjugate(S, t, j)
    requires forall k: nat | k < j :: NoBreakdown(S, t, k)
    requires S.Mu(t.R(j), t.R(j)) != 0.0 && S.Nu(t.R(j), t.R(j)) != 0.0 && t.gamma[j] != 0.0
    ensures RhoDivisor(t.gamma[j], t.gamma[j - 1], S.Mu(t.R(j), t.R(j)), S.Mu(t.R(j - 1), t.R(j - 1)),
            t.rho[j - 1]) != 0.0
  {
    hide System.Mu, System.Nu, Over, RhoDivisor, NextRho, Conjugate, Continued, CgStep, NoBreakdown, Dot;
    if RhoDivisor(t.gamma[j], t.gamma[j - 1], S.Mu(t.R(j), t.R(j)), S.Mu(t.R(j - 1), t.R(j - 1)), t.rho[j - 1]) == 0.0 {
      forall i: nat | i <= j
        ensures S.Mu(t.R(i), Apply(S.A, Continued(S, t, j))) == 0.0
      {
        StuckAlong(S, t, j, i);
      }
      ContinuedIsNull(S, t, j);
      ContinuedNotZero(S, t, j);
      assert false;
    }
  }

  lemma OverNonzero(a: real, b: real)
    requires a != 0.0 && b != 0.0
    ensures Over(a, b) != 0.0
  {
    OverTimes(a, b);
  }

  /** As long as the residual is not zero, no quotient breaks down. */
  lemma StepIsSound(S: System, t: Steps, j: nat)
    requires CgRun(S, t) && S.Valid() && j < |t.rho| && Conjugate(S, t, j)
    requires forall k: nat | k < j :: NoBreakdown(S, t, k)
    requires t.R(j) != Zeros(S.n)
    ensures NoBreakdown(S, t, j)
  {
    hide System.Mu, System.Nu, Over, RhoDivisor, Conjugate, DotTo;
    assert CgStep(S, t, j);
    var myu := S.Mu(t.R(j), t.R(j));
    MuNonzero(S, t.R(j));
    NuNonzero(S, t.R(j));
    OverNonzero(myu, S.Nu(t.R(j), t.R(j)));
    if j > 0 {
      DivisorNonzero(S, t, j);
      var myu1 := S.Mu(t.R(j - 1), t.R(j - 1));
      RhoIs(t.gamma[j], t.gamma[j - 1], myu, myu1, t.rho[j - 1]);
      OverNonzero(1.0, RhoDivisor(t.gamma[j], t.gamma[j - 1], myu, myu1, t.rho[j - 1]));
    }
  }

  /** Until a residual is zero, all residuals are mutually conjugate and every step is well defined. */
  lemma {:induction false} ResidualsConjugate(S: System, t: Steps, m: nat)
    requires CgRun(S, t) && S.Valid() && m <= |t.rho|
    requires forall j: nat | j < m :: t.R(j) != Zeros(S.n)
    ensures Conjugate(S, t, m) && forall k: nat | k < m :: NoBreakdown(S, t, k)
  {
    hide System.Mu, System.Nu, CgStep, NoBreakdown, Symmetric, Definite;
    if m > 0 {
      ResidualsConjugate(S, t, m - 1);
      StepIsSound(S, t, m - 1);
      forall i: nat, j: nat | i < j <= m
        ensures S.Mu(t.R(i), t.R(j)) == 0.0
      {
        if j == m {
          NextIsConjugate(S, t, m - 1, i);
        }
      }
    }
  }

  /** Row r with its last column cleared by the pivot row and then dropped. */
  function Cleared(row: Vec, pivot: Vec): (v: Vec)
    requires |row| == |pivot| >= 1 && pivot[|pivot| - 1] != 0.0
    ensures |v| == |row| - 1
  {
    var last := |row| - 1;
    Plus(Scaled(1.0, row[..last]), Scaled(-(row[last] / pivot[last]), pivot[..last]))
  }

  lemma {:induction false} DotPrefix(u: Vec, g: Vec, x: real, n: nat)
    requires |u| == |g| + 1 && n <= |g|
    ensures DotTo(u, g + [x], n) == DotTo(u[..|g|], g, n)
  {
    if n > 0 {
      DotPrefix(u, g, x, n - 1);
    }
  }

  lemma DotAppended(u: Vec, g: Vec, x: real)
    requires |u| == |g| + 1
    ensures Dot(u, g + [x]) == Dot(u[..|g|], g) + u[|g|] * x
  {
    DotPrefix(u, g, x, |g|);
  }

  /** A solution for the cleared row and the pivot row is one for the row itself. */
  lemma ClearedRow(row: Vec, pivot: Vec, g: Vec, x: real)
    requires |row| == |pivot| == |g| + 1 && pivot[|g|] != 0.0
    requires Dot(Cleared(row, pivot), g) == 0.0 && Dot(pivot, g + [x]) == 0.0
    ensures Dot(row, g + [x]) == 0.0
  {
    hide DotTo;
    var n := |g|;
    var a, b := row[..n], pivot[..n];
    DotAppended(row, g, x);
    DotAppended(pivot, g, x);
    DotPlusScaled(g, 1.0, a, -(row[n] / pivot[n]), b, n);
    DotCommutes(g, a, n);
    DotCommutes(g, b, n);
    DotCommutes(g, Cleared(row, pivot), n);
    ClearedRing(row[n], pivot[n], row[n] / pivot[n], Dot(a, g), Dot(b, g), x);
  }

  lemma ClearedRing(u: real, q: real, f: real, da: real, db: real, x: real)
    requires u == f * q && da - f * db == 0.0 && db + q * x == 0.0
    ensures da + u * x == 0.0
  {
    assert f * (db + q * x) == f * db + u * x;
  }

  ghost predicate Nonzero(g: Vec) {
    exists i :: 0 <= i < |g| && g[i] != 0.0
  }

  /** All rows but the pivot row. */
  function Others(M: seq<Vec>, pivot: nat): (N: seq<Vec>)
    requires pivot < |M|
    ensures |N| == |M| - 1
    ensures forall r | 0 <= r < |N| :: N[r] == M[if r < pivot then r else r + 1]
  {
    M[..pivot] + M[pivot + 1..]
  }

  function ClearedRows(N: seq<Vec>, pivot: Vec, n: nat): (L: seq<Vec>)
    requires IsMatrix(N, |N|, n + 1) && |pivot| == n + 1 && pivot[n] != 0.0
    ensures IsMatrix(L, |N|, n) && forall r | 0 <= r < |N| :: L[r] == Cleared(N[r], pivot)
  {
    seq(|N|, (r: nat) requires r < |N| => Cleared(N[r], pivot))
  }

  /** The last unknown, from the pivot row. */
  lemma PivotRow(pivot: Vec, h: Vec, x: real)
    requires |pivot| == |h| + 1 && pivot[|h|] != 0.0 && x == -Dot(pivot[..|h|], h) / pivot[|h|]
    ensures Dot(pivot, h + [x]) == 0.0
  {
    DotAppended(pivot, h, x);
    var d, q := Dot(pivot[..|h|], h), pivot[|h|];
    assert x * q == -d;
  }

  /** Fewer equations than unknowns have a solution that is not zero. */
  lemma {:induction false} WideKernel(M: seq<Vec>, n: nat) returns (g: Vec)
    requires IsMatrix(M, n, n + 1)
    ensures |g| == n + 1 && Nonzero(g) && forall r | 0 <= r < n :: Dot(M[r], g) == 0.0
    decreases n
  {
    hide Dot, DotTo, Cleared, ClearedRows;
    if pivot: nat :| pivot < n && M[pivot][n] != 0.0 {
      var N := Others(M, pivot);
      var L := ClearedRows(N, M[pivot], n);
      var h := WideKernel(L, n - 1);
      var x := -Dot(M[pivot][..n], h) / M[pivot][n];
      PivotRow(M[pivot], h, x);
      g := h + [x];
      forall r | 0 <= r < n
        ensures Dot(M[r], g) == 0.0
      {
        if r != pivot {
          var k := if r < pivot then r else r - 1;
          assert N[k] == M[r] && Dot(L[k], h) == 0.0;
          ClearedRow(M[r], M[pivot], h, x);
        }
      }
      var i :| 0 <= i < |h| && h[i] != 0.0;
      assert g[i] != 0.0;
    } else {
      g := Unit(n + 1, n);
      ApplyUnit(M, n + 1, n);
      assert g[n] != 0.0;
      forall r | 0 <= r < n
        ensures Dot(M[r], g) == 0.0
      {
        assert Apply(M, g)[r] == M[r][n];
      }
    }
  }

  lemma {:induction false} DotSingle(u: Vec, g: Vec, k: nat, n: nat)
    requires n <= |u| == |g| && k < |u| && forall c | 0 <= c < |u| && c != k :: u[c] == 0.0
    ensures DotTo(u, g, n) == if k < n then u[k] * g[k] else 0.0
  {
    if n > 0 {
      DotSingle(u, g, k, n - 1);
    }
  }

  /** There are no more mutually conjugate vectors than unknowns, unless a form vanishes. */
  lemma TooMany(S: System, t: Steps) returns (i: nat)
    requires S.Valid() && t.Fits(S.n) && |t.rho| >= S.n && Conjugate(S, t, S.n)
    ensures i <= S.n && S.Mu(t.R(i), t.R(i)) == 0.0
  {
    hide Definite, Dot, DotTo, System.Mu;
    var n := S.n;
    var K := t.z[1..n + 2];
    var g := WideKernel(Transposed(K, n), n);
    i :| i < |g| && g[i] != 0.0;
    var q := Apply(S.C, t.R(i));
    var u := Apply(K, q);
    forall c: nat | c <= n
      ensures u[c] == if c == i then S.Mu(t.R(i), t.R(i)) else 0.0
    {
      DirectionAlong(S, K[c], t.R(i));
      assert K[c] == t.R(c);
      if c < i {
        MuSymmetric(S, t.R(c), t.R(i));
      }
    }
    Adjoint(q, Transposed(K, n), g);
    TransposedTwice(K, n);
    assert Apply(Transposed(K, n), g) == Zeros(n);
    DotOfZeros(q, n);
    DotIs(u, g, i);
    FactorZero(g[i], 1.0, u[i]);
  }

  lemma DirectionAlong(S: System, u: Vec, z: Vec)
    requires S.Shaped() && |u| == |z| == S.n
    ensures Dot(u, Apply(S.C, z)) == S.Mu(z, u)
  {
    DotCommutes(u, Apply(S.C, z), S.n);
  }

  lemma DotOfZeros(u: Vec, n: nat)
    requires |u| == n
    ensures Dot(u, Zeros(n)) == 0.0
  {
    DotZeros(u, n);
    DotCommutes(u, Zeros(n), n);
  }

  lemma DotIs(u: Vec, g: Vec, k: nat)
    requires |u| == |g| && k < |u| && forall c | 0 <= c < |u| && c != k :: u[c] == 0.0
    ensures Dot(u, g) == u[k] * g[k]
  {
    DotSingle(u, g, k, |u|);
  }

  /** The method ends: among the residuals 0 .. n of any run one is zero, n being the number of unknowns. */
  lemma EndsInTime(S: System, t: Steps)
    requires CgRun(S, t) && S.Valid() && |t.rho| >= S.n
    ensures exists j: nat :: j <= S.n && t.R(j) == Zeros(S.n)
  {
    hide CgStep, System.Mu, Conjugate, NoBreakdown, Symmetric, Definite;
    if forall j: nat | j < S.n :: t.R(j) != Zeros(S.n) {
      ResidualsConjugate(S, t, S.n);
      var i := TooMany(S, t);
      if t.R(i) != Zeros(S.n) {
        MuNonzero(S, t.R(i));
      }
    }
  }
}
