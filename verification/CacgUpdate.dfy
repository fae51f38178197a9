/**
 The outer updates of the communication-avoiding CG method (jupiter/cacg.c): update_cacg_opt
 (1404-1885, with its opts3 form), update_cacg_opt_nox (2383-2806), update_cacg_opt_x (2808-3302)
 and update_cacg_opt_s1 (3304-3515).  A slot of Q_, V, Z_ or W is one vector over the cells; the
 loops treat every cell alike, so an assignment to a slot stands for the loop over its cells.
 */
module CacgUpdate {
  import opened Vectors

  /** dsk, rho and gamma of one block, as pre_inner returns them. */
  datatype Coefs = Coefs(d: seq<Vec>, rho: seq<real>, gamma: seq<real>)

  /** x, x_1 and the slots. */
  datatype State = State(x: Vec, x1: Vec, Q: seq<Vec>, V: seq<Vec>, Z: seq<Vec>, W: seq<Vec>)

  ghost predicate CoefsFit(c: Coefs, s: nat) {
    IsMatrix(c.d, s, 2 * s + 1) && |c.rho| == |c.gamma| == s
  }

  ghost predicate Fits(t: State, s: nat, n: nat) {
    && |t.x| == |t.x1| == n
    && IsMatrix(t.Q, s + 1, n) && IsMatrix(t.V, s + 1, n) && IsMatrix(t.Z, s + 1, n) && IsMatrix(t.W, s + 1, n)
  }

  /** The 2 s + 1 vectors a row of dsk refers to. */
  function Basis(P: seq<Vec>, R: seq<Vec>, s: nat): (K: seq<Vec>)
    requires |P| == |R| == s + 1
    ensures |K| == 2 * s + 1
  {
    P[..s] + R
  }

  lemma BasisIsMatrix(P: seq<Vec>, R: seq<Vec>, s: nat, n: nat)
    requires IsMatrix(P, s + 1, n) && IsMatrix(R, s + 1, n)
    ensures IsMatrix(Basis(P, R, s), 2 * s + 1, n)
  {
  }

  /** The combined vectors u or y, one per inner step. */
  function Mixed(P: seq<Vec>, R: seq<Vec>, c: Coefs, s: nat, n: nat): (y: seq<Vec>)
    requires CoefsFit(c, s) && IsMatrix(P, s + 1, n) && IsMatrix(R, s + 1, n)
    ensures IsMatrix(y, s, n)
    ensures forall k | 0 <= k < s :: y[k] == Combination(Basis(P, R, s), c.d[k], n)
  {
    BasisIsMatrix(P, R, s, n);
    seq(s, (k: nat) requires k < s => Combination(Basis(P, R, s), c.d[k], n))
  }

  /** The three-term recurrence from zp and z: element k + 2 uses step k. */
  function Chain(c: Coefs, zp: Vec, z: Vec, y: seq<Vec>, k: nat): (w: Vec)
    requires k <= |y| + 1 && |c.rho| == |c.gamma| == |y| && |z| == |zp| && IsMatrix(y, |y|, |z|)
    ensures |w| == |z|
  {
    if k == 0 then zp else if k == 1 then z
    else Step(c.rho[k - 2], c.gamma[k - 2], Chain(c, zp, z, y, k - 1), y[k - 2], Chain(c, zp, z, y, k - 2))
  }

  /** The same for x, which moves along q instead of against y. */
  function XChain(c: Coefs, xp: Vec, x: Vec, q: seq<Vec>, k: nat): (w: Vec)
    requires |c.rho| == |c.gamma| && k <= |c.rho| + 1 && k <= |q| + 1 && |x| == |xp| && IsMatrix(q, |q|, |x|)
    ensures |w| == |x|
  {
    if k == 0 then xp else if k == 1 then x
    else Step(c.rho[k - 2], -c.gamma[k - 2], XChain(c, xp, x, q, k - 1), q[k - 2], XChain(c, xp, x, q, k - 2))
  }

  /** The slots after the recurrence has run through them, starting from the last two. */
  function NewSlots(c: Coefs, P: seq<Vec>, y: seq<Vec>, s: nat, n: nat): (P': seq<Vec>)
    requires s >= 1 && IsMatrix(P, s + 1, n) && IsMatrix(y, s, n) && |c.rho| == |c.gamma| == s
    ensures IsMatrix(P', s + 1, n)
    ensures forall j | 0 <= j <= s :: P'[j] == Chain(c, P[s - 1], P[s], y, j + 1)
  {
    seq(s + 1, (j: nat) requires j <= s => Chain(c, P[s - 1], P[s], y, j + 1))
  }

  /** The slots one by one. */
  lemma SlotSteps(c: Coefs, P: seq<Vec>, y: seq<Vec>, s: nat, n: nat)
    requires s >= 1 && IsMatrix(P, s + 1, n) && IsMatrix(y, s, n) && |c.rho| == |c.gamma| == s
    ensures var P' := NewSlots(c, P, y, s, n);
            && P'[0] == P[s] && P'[1] == Step(c.rho[0], c.gamma[0], P[s], y[0], P[s - 1])
            && forall j | 2 <= j <= s :: P'[j] == Step(c.rho[j - 1], c.gamma[j - 1], P'[j - 1], y[j - 1], P'[j - 2])
  {
    hide Step;
    assert Chain(c, P[s - 1], P[s], y, 1) == P[s] && Chain(c, P[s - 1], P[s], y, 0) == P[s - 1];
  }

  lemma XStarts(c: Coefs, xp: Vec, x: Vec, q: seq<Vec>)
    requires |c.rho| == |c.gamma| >= 1 && |q| >= 1 && |x| == |xp| && IsMatrix(q, |q|, |x|)
    ensures XChain(c, xp, x, q, 2) == Step(c.rho[0], -c.gamma[0], x, q[0], xp)
  {
    hide Step;
    assert XChain(c, xp, x, q, 1) == x && XChain(c, xp, x, q, 0) == xp;
  }

  lemma XOne(c: Coefs, xp: Vec, x: Vec, q: seq<Vec>)
    requires |c.rho| == |c.gamma| && |x| == |xp| && IsMatrix(q, |q|, |x|)
    ensures XChain(c, xp, x, q, 1) == x
  {
  }

  lemma XGoesOn(c: Coefs, xp: Vec, x: Vec, q: seq<Vec>, j: nat)
    requires |c.rho| == |c.gamma| && 1 <= j <= |c.rho| && j <= |q| && |x| == |xp| && IsMatrix(q, |q|, |x|)
    ensures XChain(c, xp, x, q, j + 1) ==
            Step(c.rho[j - 1], -c.gamma[j - 1], XChain(c, xp, x, q, j), q[j - 1], XChain(c, xp, x, q, j - 1))
  {
    hide Step;
  }

  /** An outer update as a function of the whole state. */
  function AfterUpdate(t: State, c: Coefs, s: nat, n: nat): (t': State)
    requires s >= 1 && CoefsFit(c, s) && Fits(t, s, n)
    ensures Fits(t', s, n)
  {
    var Q := NewSlots(c, t.Q, Mixed(t.Q, t.V, c, s, n), s, n);
    var Z := NewSlots(c, t.Z, Mixed(t.Z, t.W, c, s, n), s, n);
    State(XChain(c, t.x1, t.x, Q, s + 1), XChain(c, t.x1, t.x, Q, s), Q, t.V[0 := Q[s]], Z, t.W[0 := Z[s]])
  }

  /** Moving x along the slots q. */
  function AfterX(t: State, c: Coefs, q: seq<Vec>, s: nat, n: nat): (t': State)
    requires s >= 1 && |c.rho| == |c.gamma| == s && Fits(t, s, n) && IsMatrix(q, s + 1, n)
    ensures Fits(t', s, n)
  {
    t.(x := XChain(c, t.x1, t.x, q, s + 1), x1 := XChain(c, t.x1, t.x, q, s))
  }

  /** update_cacg_opt_nox leaves x and x_1 behind ... */
  function AfterNox(t: State, c: Coefs, s: nat, n: nat): (t': State)
    requires s >= 1 && CoefsFit(c, s) && Fits(t, s, n)
    ensures Fits(t', s, n)
  {
    AfterUpdate(t, c, s, n).(x := t.x, x1 := t.x1)
  }

  /** ... and update_cacg_opt_x first catches up, with the coefficients cx of the update before. */
  function AfterLate(t: State, c: Coefs, cx: Coefs, s: nat, n: nat): (t': State)
    requires s >= 1 && CoefsFit(c, s) && CoefsFit(cx, s) && Fits(t, s, n)
    ensures Fits(t', s, n)
  {
    AfterUpdate(AfterX(t, cx, t.Q, s, n), c, s, n)
  }

  class Solver {
    const s: nat
    const n: nat
    var x: Vec
    var x1: Vec
    var Q: seq<Vec>
    var V: seq<Vec>
    var Z: seq<Vec>
    var W: seq<Vec>

    constructor (s: nat, n: nat, t: State)
      requires s >= 1 && Fits(t, s, n)
      ensures Valid() && Contents() == t && this.s == s && this.n == n
    {
      this.s, this.n := s, n;
      x, x1, Q, V, Z, W := t.x, t.x1, t.Q, t.V, t.Z, t.W;
    }

    function Contents(): State
      reads this
    {
      State(x, x1, Q, V, Z, W)
    }

    ghost predicate Valid()
      reads this
    {
      s >= 1 && Fits(Contents(), s, n)
    }

    /** One combined vector: the last basis vector first, then the pairs. */
    method Combine(P: seq<Vec>, R: seq<Vec>, d: Vec) returns (u: Vec)
      requires IsMatrix(P, s + 1, n) && IsMatrix(R, s + 1, n) && |d| == 2 * s + 1
      ensures IsMatrix(Basis(P, R, s), |d|, n) && u == Combination(Basis(P, R, s), d, n)
    {
      hide Combination, Fits, Valid, Partial, DotTo, Basis;
      BasisIsMatrix(P, R, s, n);
      ghost var K := Basis(P, R, s);
      u := Scaled(d[s + s], R[s]);
      forall j | 0 <= j < n
        ensures u[j] == Partial(K, d, j, 0, s, n)
      {
        PartialEnds(P, R, d, j, s, n);
      }
      for i := 0 to s
        invariant |u| == n
        invariant forall j | 0 <= j < n :: u[j] == Partial(K, d, j, i, s, n)
      {
        u := Plus(Plus(u, Scaled(d[i], P[i])), Scaled(d[i + s], R[i]));
        forall j | 0 <= j < n
          ensures Partial(K, d, j, i + 1, s, n) == Partial(K, d, j, i, s, n) + d[i] * P[i][j] + d[i + s] * R[i][j]
        {
          PartialGrows(P, R, d, j, i, s, n);
        }
      }
      forall j | 0 <= j < n
        ensures u[j] == Dot(Column(K, j), d)
      {
        PartialEnds(P, R, d, j, s, n);
      }
    }

    method CombineAll(P: seq<Vec>, R: seq<Vec>, c: Coefs) returns (y: seq<Vec>)
      requires IsMatrix(P, s + 1, n) && IsMatrix(R, s + 1, n) && CoefsFit(c, s)
      ensures y == Mixed(P, R, c, s, n)
    {
      hide Combination, Fits;
      y := [];
      for jj := 1 to s + 1
        invariant |y| == jj - 1 && y == Mixed(P, R, c, s, n)[..jj - 1]
      {
        var u := Combine(P, R, c.d[jj - 1]);
        y := y + [u];
      }
    }

    /** The in-place loops over the slots; slot 0 is overwritten first. */
    method Recur(P: seq<Vec>, y: seq<Vec>, c: Coefs) returns (P': seq<Vec>)
      requires s >= 1 && IsMatrix(P, s + 1, n) && IsMatrix(y, s, n) && CoefsFit(c, s)
      ensures s >= 2 ==> P' == NewSlots(c, P, y, s, n)
      ensures s == 1 ==> P' == [P[1], Step(c.rho[0], c.gamma[0], P[1], y[0], P[1])]
    {
      hide Step, NewSlots, Chain;
      SlotSteps(c, P, y, s, n);
      ghost var want := NewSlots(c, P, y, s, n);
      P' := P;
      P' := P'[0 := P'[s]];
      P' := P'[1 := Step(c.rho[0], c.gamma[0], P'[s], y[0], P'[s - 1])];
      for jj := 2 to s + 1
        invariant IsMatrix(P', s + 1, n)
        invariant s >= 2 ==> forall i | 0 <= i < jj :: P'[i] == want[i]
        invariant s == 1 ==> P' == [P[1], Step(c.rho[0], c.gamma[0], P[1], y[0], P[1])]
      {
        P' := P'[jj := Step(c.rho[jj - 1], c.gamma[jj - 1], P'[jj - 1], y[jj - 1], P'[jj - 2])];
      }
    }

    /** x along the slots Q_[0 .. smax-1], with x_1 trailing. */
    method MoveX(c: Coefs)
      requires Valid() && |c.rho| == |c.gamma| == s
      modifies this`x, this`x1
      ensures Contents() == AfterX(old(Contents()), c, Q, s, n)
    {
      hide Step;
      ghost var a, b := x1, x;
      for jj := 1 to s + 1
        invariant |x| == |x1| == n
        invariant x == XChain(c, a, b, Q, jj) && x1 == XChain(c, a, b, Q, jj - 1)
      {
        var xs := x;
        x := Step(c.rho[jj - 1], -c.gamma[jj - 1], x, Q[jj - 1], x1);
        x1 := xs;
      }
    }

    /** The sum of squares the reduction collects. */
    method SquaredNorm(z: Vec) returns (r: real)
      ensures r == Dot(z, z)
    {
      r := 0.0;
      for j := 0 to |z|
        invariant r == DotTo(z, z, j)
      {
        r := r + z[j] * z[j];
      }
    }

    /** The second half of every update: Z_ and W, and the residual norm. */
    method MoveZ(c: Coefs) returns (rmax: real)
      requires Valid() && CoefsFit(c, s) && s >= 2
      modifies this`Z, this`W
      ensures Z == NewSlots(c, old(Z), Mixed(old(Z), old(W), c, s, n), s, n) && W == old(W)[0 := Z[s]]
      ensures rmax == Dot(Z[s], Z[s])
    {
      var y := CombineAll(Z, W, c);
      Z := Recur(Z, y, c);
      W := W[0 := Z[s]];
      rmax := SquaredNorm(Z[s]);
    }

    /** update_cacg_opt. */
    method Update(c: Coefs) returns (rmax: real)
      requires Valid() && CoefsFit(c, s) && s >= 2
      modifies this
      ensures Valid() && Contents() == AfterUpdate(old(Contents()), c, s, n)
      ensures rmax == Dot(Z[s], Z[s])
    {
      hide Mixed, NewSlots, Dot;
      var u := CombineAll(Q, V, c);
      Q := Recur(Q, u, c);
      V := V[0 := Q[s]];
      MoveX(c);
      rmax := MoveZ(c);
    }

    /** Its opts3 form: three inner steps fused, with x and x_1 taking turns. */
    method UpdateFused(c: Coefs) returns (rmax: real)
      requires Valid() && CoefsFit(c, s) && s == 3
      modifies this
      ensures Valid() && Contents() == AfterUpdate(old(Contents()), c, s, n)
      ensures rmax == Dot(Z[s], Z[s])
    {
      hide Mixed, Dot;
      var u := CombineAll(Q, V, c);
      FusedThree(u, c);
      rmax := MoveZ(c);
    }

    method FusedThree(u: seq<Vec>, c: Coefs)
      requires Valid() && CoefsFit(c, s) && s == 3 && IsMatrix(u, s, n)
      modifies this`x, this`x1, this`Q, this`V
      ensures Q == NewSlots(c, old(Q), u, s, n) && V == old(V)[0 := Q[s]]
      ensures x == XChain(c, old(x1), old(x), Q, s + 1) && x1 == XChain(c, old(x1), old(x), Q, s)
    {
      hide Step, NewSlots, Chain;
      ghost var want := NewSlots(c, Q, u, s, n);
      ghost var a, b := x1, x;
      SlotSteps(c, Q, u, s, n);
      XStarts(c, a, b, want);
      Q := Q[0 := Q[s]];
      var xs := Step(c.rho[0], -c.gamma[0], x, Q[0], x1);
      Q := Q[1 := Step(c.rho[0], c.gamma[0], Q[s], u[0], Q[s - 1])];
      assert Q[0] == want[0] && Q[1] == want[1];
      x1 := Step(c.rho[1], -c.gamma[1], xs, Q[1], x);
      Q := Q[2 := Step(c.rho[1], c.gamma[1], Q[1], u[1], Q[0])];
      assert Q[2] == want[2];
      x := Step(c.rho[2], -c.gamma[2], x1, Q[2], xs);
      Q := Q[3 := Step(c.rho[2], c.gamma[2], Q[2], u[2], Q[1])];
      assert Q == want;
      V := V[0 := Q[s]];
      assert XChain(c, a, b, want, 3) == x1;
    }

    /** update_cacg_opt_nox. */
    method UpdateNox(c: Coefs) returns (rmax: real)
      requires Valid() && CoefsFit(c, s) && s >= 2
      modifies this
      ensures Valid() && Contents() == AfterNox(old(Contents()), c, s, n)
      ensures rmax == Dot(Z[s], Z[s])
    {
      hide Mixed, NewSlots, Dot;
      var u := CombineAll(Q, V, c);
      Q := Recur(Q, u, c);
      V := V[0 := Q[s]];
      rmax := MoveZ(c);
    }

    /** update_cacg_opt_x: x catches up on the old slots, then Q_ and x advance together. */
    method UpdateLate(c: Coefs, cx: Coefs) returns (rmax: real)
      requires Valid() && CoefsFit(c, s) && CoefsFit(cx, s) && s >= 2
      modifies this
      ensures Valid() && Contents() == AfterLate(old(Contents()), c, cx, s, n)
      ensures rmax == Dot(Z[s], Z[s])
    {
      hide Mixed, Dot, Step, NewSlots, XChain;
      var u := CombineAll(Q, V, c);
      MoveX(cx);
      Interleaved(u, c);
      rmax := MoveZ(c);
    }

    method Interleaved(u: seq<Vec>, c: Coefs)
      requires Valid() && CoefsFit(c, s) && s >= 2 && IsMatrix(u, s, n)
      modifies this`x, this`x1, this`Q, this`V
      ensures Q == NewSlots(c, old(Q), u, s, n) && V == old(V)[0 := Q[s]]
      ensures x == XChain(c, old(x1), old(x), Q, s + 1) && x1 == XChain(c, old(x1), old(x), Q, s)
    {
      hide Step, NewSlots, Chain, XChain;
      ghost var want := NewSlots(c, Q, u, s, n);
      ghost var a, b := x1, x;
      SlotSteps(c, Q, u, s, n);
      XStarts(c, a, b, want);
      var xs;
      Q := Q[0 := Q[s]];
      Q := Q[1 := Step(c.rho[0], c.gamma[0], Q[s], u[0], Q[s - 1])];
      xs := x;
      x := Step(c.rho[0], -c.gamma[0], x, Q[0], x1);
      x1 := xs;
      XOne(c, a, b, want);
      for jj := 2 to s
        invariant IsMatrix(Q, s + 1, n) && |x| == |x1| == n && V == old(V)
        invariant forall i | 0 <= i < jj :: Q[i] == want[i]
        invariant x == XChain(c, a, b, want, jj) && x1 == XChain(c, a, b, want, jj - 1)
      {
        MoveSlot(u, c, jj, want, a, b);
      }
      MoveSlot(u, c, s, want, a, b);
      assert Q == want;
      V := V[0 := Q[s]];
    }

    /** One slot and, with it, x. */
    method MoveSlot(u: seq<Vec>, c: Coefs, jj: nat, ghost want: seq<Vec>, ghost a: Vec, ghost b: Vec)
      requires Valid() && CoefsFit(c, s) && 2 <= jj <= s && IsMatrix(u, s, n) && IsMatrix(want, s + 1, n)
      requires |a| == |b| == n
      requires want[jj] == Step(c.rho[jj - 1], c.gamma[jj - 1], want[jj - 1], u[jj - 1], want[jj - 2])
      requires forall i | 0 <= i < jj :: Q[i] == want[i]
      requires x == XChain(c, a, b, want, jj) && x1 == XChain(c, a, b, want, jj - 1)
      modifies this`x, this`x1, this`Q
      ensures Valid() && forall i | 0 <= i <= jj :: Q[i] == want[i]
      ensures x == XChain(c, a, b, want, jj + 1) && x1 == XChain(c, a, b, want, jj)
    {
      hide Step, XChain;
      XGoesOn(c, a, b, want, jj);
      Q := Q[jj := Step(c.rho[jj - 1], c.gamma[jj - 1], Q[jj - 1], u[jj - 1], Q[jj - 2])];
      var xs := x;
      x := Step(c.rho[jj - 1], -c.gamma[jj - 1], x, Q[jj - 1], x1);
      x1 := xs;
    }

    /** update_cacg_opt_s1: with one inner step the slot is saved before it is overwritten. */
    method UpdateSingle(c: Coefs) returns (rmax: real)
      requires Valid() && CoefsFit(c, s) && s == 1
      modifies this
      ensures Valid() && Contents() == AfterUpdate(old(Contents()), c, s, n)
      ensures rmax == Dot(Z[s], Z[s])
    {
      hide Mixed, Dot, Step;
      var u := CombineAll(Q, V, c);
      Q := SaveAndStep(Q, u, c);
      V := V[0 := Q[s]];
      MoveX(c);
      var y := CombineAll(Z, W, c);
      Z := SaveAndStep(Z, y, c);
      W := W[0 := Z[s]];
      rmax := SquaredNorm(Z[s]);
    }

    method SaveAndStep(P: seq<Vec>, y: seq<Vec>, c: Coefs) returns (P': seq<Vec>)
      requires s == 1 && IsMatrix(P, s + 1, n) && IsMatrix(y, s, n) && CoefsFit(c, s)
      ensures P' == NewSlots(c, P, y, s, n)
    {
      hide Step, NewSlots, Chain;
      SlotSteps(c, P, y, s, n);
      var q1 := P[s];
      P' := P[1 := Step(c.rho[0], c.gamma[0], P[s], y[0], P[s - 1])];
      P' := P'[0 := q1];
    }
  }

  /** The combined component j after i pairs. */
  function Partial(K: seq<Vec>, d: Vec, j: nat, i: nat, s: nat, n: nat): real
    requires IsMatrix(K, |d|, n) && |d| == 2 * s + 1 && j < n && i <= s
  {
    var k := Column(K, j);
    d[s + s] * K[2 * s][j] + DotTo(k, d, i) + (DotTo(k, d, s + i) - DotTo(k, d, s))
  }

  lemma PartialGrows(P: seq<Vec>, R: seq<Vec>, d: Vec, j: nat, i: nat, s: nat, n: nat)
    requires IsMatrix(P, s + 1, n) && IsMatrix(R, s + 1, n) && |d| == 2 * s + 1 && j < n && i < s
    ensures IsMatrix(Basis(P, R, s), |d|, n)
    ensures var K := Basis(P, R, s);
            Partial(K, d, j, i + 1, s, n) == Partial(K, d, j, i, s, n) + d[i] * P[i][j] + d[i + s] * R[i][j]
  {
    BasisIsMatrix(P, R, s, n);
    var k := Column(Basis(P, R, s), j);
    assert k[i] == P[i][j] && k[s + i] == R[i][j];
    assert DotTo(k, d, i + 1) == DotTo(k, d, i) + k[i] * d[i];
    assert DotTo(k, d, s + i + 1) == DotTo(k, d, s + i) + k[s + i] * d[s + i];
  }

  /** Before the first pair, and after the last one. */
  lemma PartialEnds(P: seq<Vec>, R: seq<Vec>, d: Vec, j: nat, s: nat, n: nat)
    requires IsMatrix(P, s + 1, n) && IsMatrix(R, s + 1, n) && |d| == 2 * s + 1 && j < n
    ensures IsMatrix(Basis(P, R, s), |d|, n)
    ensures Partial(Basis(P, R, s), d, j, 0, s, n) == d[s + s] * R[s][j]
    ensures Partial(Basis(P, R, s), d, j, s, s, n) == Dot(Column(Basis(P, R, s), j), d)
  {
    BasisIsMatrix(P, R, s, n);
    var k := Column(Basis(P, R, s), j);
    assert k[2 * s] == R[s][j];
    assert DotTo(k, d, 2 * s + 1) == DotTo(k, d, 2 * s) + k[2 * s] * d[2 * s];
  }

  /** With one inner step the plain in-place loop is right exactly when the step ignores the older slot. */
  lemma PlainLoopAtOne(c: Coefs, P: seq<Vec>, y: seq<Vec>, n: nat)
    requires IsMatrix(P, 2, n) && IsMatrix(y, 1, n) && CoefsFit(c, 1)
    ensures [P[1], Step(c.rho[0], c.gamma[0], P[1], y[0], P[1])] == NewSlots(c, P, y, 1, n) <==>
            c.rho[0] == 1.0 || P[0] == P[1]
  {
    hide StepAt;
    var r, g := c.rho[0], c.gamma[0];
    var plain, right := Step(r, g, P[1], y[0], P[1]), Step(r, g, P[1], y[0], P[0]);
    SlotSteps(c, P, y, 1, n);
    assert NewSlots(c, P, y, 1, n) == [P[1], right];
    forall i | 0 <= i < n
      ensures plain[i] == right[i] <==> r == 1.0 || P[0][i] == P[1][i]
    {
      OlderTerm(r, g, P[1][i], y[0][i], P[0][i]);
    }
    if plain == right && r != 1.0 {
      assert forall i | 0 <= i < n :: plain[i] == right[i];
    }
  }

  lemma OlderTerm(r: real, g: real, z: real, y: real, p: real)
    ensures StepAt(r, g, z, y, z) == StepAt(r, g, z, y, p) <==> r == 1.0 || p == z
  {
    var a, b := 1.0 - r, z - p;
    assert StepAt(r, g, z, y, z) - StepAt(r, g, z, y, p) == a * b;
    if a != 0.0 && b != 0.0 {
      NoZeroDivisors(a, b);
    }
  }

  lemma NoZeroDivisors(a: real, b: real)
    requires a != 0.0 && b != 0.0
    ensures a * b != 0.0
  {
  }
}
