/** Vectors, matrices as sequences of rows, and the linear algebra the CG kernel rests on. */
module Vectors {

  type Vec = seq<real>

  /** One step of a three-term recurrence, for one component. */
  function StepAt(r: real, g: real, z: real, y: real, p: real): real {
    r * (z - g * y) + (1.0 - r) * p
  }

  /** r (z - g y) + (1 - r) p. */
  function Step(r: real, g: real, z: Vec, y: Vec, p: Vec): (w: Vec)
    requires |z| == |y| == |p|
    ensures |w| == |z| && forall i | 0 <= i < |z| :: w[i] == StepAt(r, g, z[i], y[i], p[i])
  {
    seq(|z|, (i: nat) requires i < |z| => StepAt(r, g, z[i], y[i], p[i]))
  }

  function Scaled(a: real, u: Vec): (w: Vec)
    ensures |w| == |u| && forall i | 0 <= i < |u| :: w[i] == a * u[i]
  {
    seq(|u|, (i: nat) requires i < |u| => a * u[i])
  }

  function Plus(u: Vec, v: Vec): (w: Vec)
    requires |u| == |v|
    ensures |w| == |u| && forall i | 0 <= i < |u| :: w[i] == u[i] + v[i]
  {
    seq(|u|, (i: nat) requires i < |u| => u[i] + v[i])
  }

  function Minus(u: Vec, v: Vec): (w: Vec)
    requires |u| == |v|
    ensures |w| == |u| && forall i | 0 <= i < |u| :: w[i] == u[i] - v[i]
  {
    seq(|u|, (i: nat) requires i < |u| => u[i] - v[i])
  }

  function Zeros(n: nat): (w: Vec)
    ensures |w| == n && forall i | 0 <= i < n :: w[i] == 0.0
  {
    seq(n, i => 0.0)
  }

  /** The k-th unit vector. */
  function Unit(n: nat, k: nat): (w: Vec)
    ensures |w| == n && forall i | 0 <= i < n :: w[i] == if i == k then 1.0 else 0.0
  {
    seq(n, i => if i == k then 1.0 else 0.0)
  }

  /** The inner product of the first n components. */
  function DotTo(u: Vec, v: Vec, n: nat): real
    requires n <= |u| && n <= |v|
  {
    if n == 0 then 0.0 else DotTo(u, v, n - 1) + u[n - 1] * v[n - 1]
  }

  function Dot(u: Vec, v: Vec): real
    requires |u| == |v|
  {
    DotTo(u, v, |u|)
  }

  /** A matrix with the given numbers of rows and columns. */
  ghost predicate IsMatrix(M: seq<Vec>, rows: nat, cols: nat) {
    |M| == rows && forall r | 0 <= r < rows :: |M[r]| == cols
  }

  function Apply(M: seq<Vec>, v: Vec): (w: Vec)
    requires IsMatrix(M, |M|, |v|)
    ensures |w| == |M| && forall r | 0 <= r < |M| :: w[r] == Dot(M[r], v)
  {
    seq(|M|, (r: nat) requires r < |M| => Dot(M[r], v))
  }

  function Column(M: seq<Vec>, c: nat): (w: Vec)
    requires forall r | 0 <= r < |M| :: c < |M[r]|
    ensures |w| == |M| && forall r | 0 <= r < |M| :: w[r] == M[r][c]
  {
    seq(|M|, (r: nat) requires r < |M| => M[r][c])
  }

  function Transposed(M: seq<Vec>, cols: nat): (N: seq<Vec>)
    requires IsMatrix(M, |M|, cols)
    ensures IsMatrix(N, cols, |M|) && forall c | 0 <= c < cols :: N[c] == Column(M, c)
  {
    seq(cols, (c: nat) requires c < cols => Column(M, c))
  }

  lemma TransposedTwice(K: seq<Vec>, n: nat)
    requires IsMatrix(K, |K|, n)
    ensures Transposed(Transposed(K, n), |K|) == K
  {
    forall r | 0 <= r < |K|
      ensures Transposed(Transposed(K, n), |K|)[r] == K[r]
    {
      assert forall c | 0 <= c < n :: Column(Transposed(K, n), r)[c] == K[r][c];
    }
  }

  /** The combination of the vectors K (each with n components) with the coordinates g. */
  function Combination(K: seq<Vec>, g: Vec, n: nat): (w: Vec)
    requires IsMatrix(K, |g|, n)
    ensures |w| == n && forall i | 0 <= i < n :: w[i] == Dot(Column(K, i), g)
  {
    Apply(Transposed(K, n), g)
  }

  lemma StepRing(r: real, g: real, a: real, z: real, y: real, p: real, dz: real, dy: real, dp: real)
    ensures StepAt(r, g, dz, dy, dp) + a * StepAt(r, g, z, y, p) ==
            StepAt(r, g, dz + a * z, dy + a * y, dp + a * p)
  {
    assert a * (r * (z - g * y)) == r * (a * z - g * (a * y));
    assert a * ((1.0 - r) * p) == (1.0 - r) * (a * p);
  }

  /** The same with names for the two vectors' components and the sums that take them in. */
  lemma StepGrows(r: real, g: real, a: real, z: real, y: real, p: real, q: real,
                  dz: real, dy: real, dp: real, dq: real, tz: real, ty: real, tp: real, tq: real)
    requires q == StepAt(r, g, z, y, p) && dq == StepAt(r, g, dz, dy, dp)
    requires tz == dz + a * z && ty == dy + a * y && tp == dp + a * p && tq == dq + a * q
    ensures tq == StepAt(r, g, tz, ty, tp)
  {
    hide StepAt;
    StepRing(r, g, a, z, y, p, dz, dy, dp);
  }

  /** The inner product is linear in its second argument. */
  lemma {:induction false} DotStep(u: Vec, r: real, g: real, z: Vec, y: Vec, p: Vec, n: nat)
    requires |u| == |z| == |y| == |p| && n <= |u|
    ensures DotTo(u, Step(r, g, z, y, p), n) == StepAt(r, g, DotTo(u, z, n), DotTo(u, y, n), DotTo(u, p, n))
  {
    hide StepAt;
    if n == 0 {
      StepZero(r, g);
    } else {
      DotStep(u, r, g, z, y, p, n - 1);
      var w := Step(r, g, z, y, p);
      StepGrows(r, g, u[n - 1], z[n - 1], y[n - 1], p[n - 1], w[n - 1],
                DotTo(u, z, n - 1), DotTo(u, y, n - 1), DotTo(u, p, n - 1), DotTo(u, w, n - 1),
                DotTo(u, z, n), DotTo(u, y, n), DotTo(u, p, n), DotTo(u, w, n));
    }
  }

  lemma StepZero(r: real, g: real)
    ensures StepAt(r, g, 0.0, 0.0, 0.0) == 0.0
  {
  }

  lemma ApplyStep(M: seq<Vec>, r: real, g: real, z: Vec, y: Vec, p: Vec)
    requires |z| == |y| == |p| && IsMatrix(M, |M|, |z|)
    ensures Apply(M, Step(r, g, z, y, p)) == Step(r, g, Apply(M, z), Apply(M, y), Apply(M, p))
  {
    hide StepAt, DotTo;
    forall i | 0 <= i < |M|
      ensures Apply(M, Step(r, g, z, y, p))[i] == Step(r, g, Apply(M, z), Apply(M, y), Apply(M, p))[i]
    {
      DotStep(M[i], r, g, z, y, p, |z|);
    }
  }

  lemma CombinationStep(K: seq<Vec>, n: nat, r: real, g: real, z: Vec, y: Vec, p: Vec)
    requires |z| == |y| == |p| && IsMatrix(K, |z|, n)
    ensures Combination(K, Step(r, g, z, y, p), n) ==
            Step(r, g, Combination(K, z, n), Combination(K, y, n), Combination(K, p, n))
  {
    ApplyStep(Transposed(K, n), r, g, z, y, p);
  }

  lemma {:induction false} DotUnit(u: Vec, k: nat, n: nat)
    requires n <= |u| && k < |u|
    ensures DotTo(u, Unit(|u|, k), n) == if k < n then u[k] else 0.0
  {
    if n > 0 {
      DotUnit(u, k, n - 1);
    }
  }

  lemma CombinationUnit(K: seq<Vec>, n: nat, k: nat)
    requires k < |K| && IsMatrix(K, |K|, n)
    ensures Combination(K, Unit(|K|, k), n) == K[k]
  {
    forall i | 0 <= i < n
      ensures Combination(K, Unit(|K|, k), n)[i] == K[k][i]
    {
      DotUnit(Column(K, i), k, |K|);
    }
  }

  lemma ApplyUnit(M: seq<Vec>, n: nat, k: nat)
    requires k < n && IsMatrix(M, |M|, n)
    ensures Apply(M, Unit(n, k)) == Column(M, k)
  {
    forall r | 0 <= r < |M|
      ensures Apply(M, Unit(n, k))[r] == M[r][k]
    {
      DotUnit(M[r], k, n);
    }
  }

  lemma {:induction false} DotCommutes(u: Vec, v: Vec, n: nat)
    requires n <= |u| && n <= |v|
    ensures DotTo(u, v, n) == DotTo(v, u, n)
  {
    if n > 0 {
      DotCommutes(u, v, n - 1);
    }
  }

  /** u M g, summed row by row, over the first m rows and n columns. */
  function RowSums(u: Vec, M: seq<Vec>, g: Vec, m: nat, n: nat): real
    requires m <= |u| && m <= |M| && n <= |g| && forall r | 0 <= r < m :: n <= |M[r]|
  {
    if m == 0 then 0.0 else RowSums(u, M, g, m - 1, n) + u[m - 1] * DotTo(M[m - 1], g, n)
  }

  /** One more column. */
  lemma {:induction false} RowSumsGrow(u: Vec, M: seq<Vec>, g: Vec, m: nat, n: nat)
    requires m <= |u| && m <= |M| && n < |g| && forall r | 0 <= r < |M| :: n < |M[r]|
    ensures RowSums(u, M, g, m, n + 1) == RowSums(u, M, g, m, n) + DotTo(Column(M, n), u, m) * g[n]
  {
    if m > 0 {
      RowSumsGrow(u, M, g, m - 1, n);
      GrowRing(u[m - 1], DotTo(M[m - 1], g, n), M[m - 1][n], g[n], DotTo(Column(M, n), u, m - 1));
    }
  }

  lemma GrowRing(u: real, d: real, a: real, g: real, e: real)
    ensures u * (d + a * g) + e * g == u * d + (e + a * u) * g
  {
    assert u * (a * g) == (a * u) * g;
  }

  lemma {:induction false} RowSumsEmpty(u: Vec, M: seq<Vec>, g: Vec, m: nat)
    requires m <= |u| && m <= |M|
    ensures RowSums(u, M, g, m, 0) == 0.0
  {
    if m > 0 {
      RowSumsEmpty(u, M, g, m - 1);
    }
  }

  lemma {:induction false} ColumnSums(u: Vec, M: seq<Vec>, g: Vec, n: nat)
    requires |u| == |M| && n <= |g| && IsMatrix(M, |M|, |g|)
    ensures RowSums(u, M, g, |M|, n) == DotTo(Apply(Transposed(M, |g|), u), g, n)
  {
    if n == 0 {
      RowSumsEmpty(u, M, g, |M|);
    } else {
      ColumnSums(u, M, g, n - 1);
      RowSumsGrow(u, M, g, |M|, n - 1);
    }
  }

  lemma {:induction false} RowSumsAreDot(u: Vec, M: seq<Vec>, g: Vec, m: nat)
    requires |u| == |M| && m <= |M| && IsMatrix(M, |M|, |g|)
    ensures RowSums(u, M, g, m, |g|) == DotTo(u, Apply(M, g), m)
  {
    if m > 0 {
      RowSumsAreDot(u, M, g, m - 1);
    }
  }

  /** <u, M g> = <M^T u, g>. */
  lemma Adjoint(u: Vec, M: seq<Vec>, g: Vec)
    requires |u| == |M| && IsMatrix(M, |M|, |g|)
    ensures Dot(u, Apply(M, g)) == Dot(Apply(Transposed(M, |g|), u), g)
  {
    RowSumsAreDot(u, M, g, |M|);
    ColumnSums(u, M, g, |g|);
  }

  lemma {:induction false} DotCongruent(u: Vec, v: Vec, g: Vec, n: nat)
    requires |u| == |v| == |g| && n <= |g| && forall c | 0 <= c < n :: u[c] == v[c] || g[c] == 0.0
    ensures DotTo(u, g, n) == DotTo(v, g, n)
  {
    if n > 0 {
      DotCongruent(u, v, g, n - 1);
      assert u[n - 1] * g[n - 1] == v[n - 1] * g[n - 1];
    }
  }

  lemma {:induction false} DotOfSums(a: Vec, b: Vec, c: Vec, d: Vec, n: nat)
    requires |a| == |c| && |b| == |d| && n <= |b|
    ensures DotTo(a + b, c + d, |a| + n) == Dot(a, c) + DotTo(b, d, n)
  {
    if n == 0 {
      DotOfPrefix(a, b, c, d, |a|);
    } else {
      DotOfSums(a, b, c, d, n - 1);
    }
  }

  lemma {:induction false} DotOfPrefix(a: Vec, b: Vec, c: Vec, d: Vec, n: nat)
    requires |a| == |c| && n <= |a|
    ensures DotTo(a + b, c + d, n) == DotTo(a, c, n)
  {
    if n > 0 {
      DotOfPrefix(a, b, c, d, n - 1);
    }
  }

  lemma {:induction false} DotPlusScaled(u: Vec, a: real, v: Vec, b: real, w: Vec, n: nat)
    requires |u| == |v| == |w| && n <= |u|
    ensures DotTo(u, Plus(Scaled(a, v), Scaled(b, w)), n) == a * DotTo(u, v, n) + b * DotTo(u, w, n)
  {
    if n > 0 {
      DotPlusScaled(u, a, v, b, w, n - 1);
      PlusScaledRing(u[n - 1], a, v[n - 1], b, w[n - 1], DotTo(u, v, n - 1), DotTo(u, w, n - 1));
    }
  }

  lemma PlusScaledRing(u: real, a: real, v: real, b: real, w: real, d: real, e: real)
    ensures a * d + b * e + u * (a * v + b * w) == a * (d + u * v) + b * (e + u * w)
  {
    assert u * (a * v + b * w) == a * (u * v) + b * (u * w);
  }

  lemma ApplyPlusScaled(M: seq<Vec>, a: real, v: Vec, b: real, w: Vec)
    requires |v| == |w| && IsMatrix(M, |M|, |v|)
    ensures Apply(M, Plus(Scaled(a, v), Scaled(b, w))) == Plus(Scaled(a, Apply(M, v)), Scaled(b, Apply(M, w)))
  {
    hide DotTo;
    forall i | 0 <= i < |M|
      ensures Apply(M, Plus(Scaled(a, v), Scaled(b, w)))[i] == a * Apply(M, v)[i] + b * Apply(M, w)[i]
    {
      DotPlusScaled(M[i], a, v, b, w, |v|);
    }
  }
}
