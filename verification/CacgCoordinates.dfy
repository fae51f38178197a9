/**
 pre_inner (jupiter/cacg.c, 711-887): one block of the communication-avoiding CG method carried
 out on short coordinate vectors of 2 * smax + 1 numbers.  The small matrices are kept as rows
 instead of flattened.
 */
module CacgCoordinates {
  import opened Vectors

  /** a / b; a quotient by zero is left to the caller, and nothing below depends on what it is. */
  function Over(a: real, b: real): real {
    if b == 0.0 then 0.0 else a / b
  }

  /** The block size s = smax and the small matrices the caller has prepared. */
  datatype Block = Block(s: nat, B: seq<Vec>, T: seq<Vec>, e1e1: seq<Vec>, Gk: seq<Vec>, rho0: real, gamma0: real) {
    ghost predicate Valid() {
      && s >= 1 && IsMatrix(B, s + 1, s) && IsMatrix(T, s, s)
      && IsMatrix(e1e1, s + 1, s + 1) && IsMatrix(Gk, N(), N())
    }

    function N(): nat { 2 * s + 1 }

    /** e1e1 is zero but for its corner, and the first column of B is zero below its second entry. */
    ghost predicate Shaped()
      requires Valid()
    {
      && (forall r, c | 0 <= r <= s && 0 <= c <= s && (r, c) != (0, 0) :: e1e1[r][c] == 0.0)
      && (forall r | 2 <= r <= s :: B[r][0] == 0.0)
    }
  }

  /** An entry of -e1e1 / (rho0 gamma0). */
  function FromE(p: Block, r: nat, c: nat): real
    requires p.Valid() && r <= p.s && c <= p.s
  {
    Over(-p.e1e1[r][c], p.rho0 * p.gamma0)
  }

  /** The first TBsk: T in its corner and the last coordinate's column of the previous block. */
  function TEntry(p: Block, r: nat, c: nat): real
    requires p.Valid() && r < p.N() && c < p.N()
  {
    if r < p.s then (if c < p.s then p.T[r][c] else 0.0)
    else if p.s - 1 <= c < 2 * p.s then FromE(p, r - p.s, c + 1 - p.s)
    else 0.0
  }

  /** The second TBsk: B in its lower part. */
  function BEntry(p: Block, r: nat, c: nat): real
    requires p.Valid() && r < p.N() && c < p.N()
  {
    if r >= p.s && p.s <= c < 2 * p.s then p.B[r - p.s][c - p.s] else 0.0
  }

  function TPart(p: Block): (M: seq<Vec>)
    requires p.Valid()
    ensures IsMatrix(M, p.N(), p.N())
    ensures forall r, c | 0 <= r < p.N() && 0 <= c < p.N() :: M[r][c] == TEntry(p, r, c)
  {
    seq(p.N(), (r: nat) requires r < p.N() => seq(p.N(), (c: nat) requires c < p.N() => TEntry(p, r, c)))
  }

  function BPart(p: Block): (M: seq<Vec>)
    requires p.Valid()
    ensures IsMatrix(M, p.N(), p.N())
    ensures forall r, c | 0 <= r < p.N() && 0 <= c < p.N() :: M[r][c] == BEntry(p, r, c)
  {
    seq(p.N(), (r: nat) requires r < p.N() => seq(p.N(), (c: nat) requires c < p.N() => BEntry(p, r, c)))
  }

  /** The two added: multiplication by the operator, in coordinates. */
  function Operator(p: Block): (M: seq<Vec>)
    requires p.Valid()
    ensures IsMatrix(M, p.N(), p.N())
    ensures forall r | 0 <= r < p.N() :: M[r] == Plus(TPart(p)[r], BPart(p)[r])
  {
    seq(p.N(), (r: nat) requires r < p.N() => Plus(TPart(p)[r], BPart(p)[r]))
  }

  /** dsk as the first iteration sets it. */
  function FirstD(p: Block): (d: Vec)
    requires p.Valid()
    ensures |d| == p.N()
  {
    Zeros(p.N())[p.s := p.B[0][0]][p.s + 1 := p.B[1][0]]
  }

  /** No two of the six buffers are the same. */
  predicate Distinct(d: array<real>, d1: array<real>, d2: array<real>, g: array<real>, g1: array<real>,
                     g2: array<real>) {
    && d != d1 && d != d2 && d != g && d != g1 && d != g2
    && d1 != d2 && d1 != g && d1 != g1 && d1 != g2
    && d2 != g && d2 != g1 && d2 != g2
    && g != g1 && g != g2 && g1 != g2
  }

  /** dsk_2, dsk_1 := dsk_1, dsk and the same for gsk. */
  method Shift(d: array<real>, d1: array<real>, d2: array<real>, g: array<real>, g1: array<real>, g2: array<real>)
    requires d.Length == d1.Length == d2.Length == g.Length == g1.Length == g2.Length
    requires Distinct(d, d1, d2, g, g1, g2)
    modifies d1, d2, g1, g2
    ensures d2[..] == old(d1[..]) && d1[..] == old(d[..])
    ensures g2[..] == old(g1[..]) && g1[..] == old(g[..])
  {
    for i := 0 to d.Length
      invariant forall s | 0 <= s < i ::
                d2[s] == old(d1[s]) && d1[s] == old(d[s]) && g2[s] == old(g1[s]) && g1[s] == old(g[s])
      invariant forall s | i <= s < d.Length :: d1[s] == old(d1[s]) && g1[s] == old(g1[s])
    {
      d2[i] := d1[i];
      d1[i] := d[i];
      g2[i] := g1[i];
      g1[i] := g[i];
    }
  }

  method Begin(p: Block, d: array<real>, g: array<real>)
    requires p.Valid() && d != g && d.Length == g.Length == p.N()
    modifies d, g
    ensures g[..] == Unit(p.N(), p.s) && d[..] == FirstD(p)
  {
    for i := 0 to g.Length
      invariant forall s | 0 <= s < i :: g[s] == 0.0 == d[s]
    {
      g[i] := 0.0;
      d[i] := 0.0;
    }
    g[p.s] := 1.0;
    d[p.s] := p.B[0][0];
    d[p.s + 1] := p.B[1][0];
  }

  method NextG(rho: real, gamma: real, d1: array<real>, g1: array<real>, g2: array<real>, g: array<real>)
    requires d1.Length == g1.Length == g2.Length == g.Length && g != d1 && g != g1 && g != g2
    modifies g
    ensures g[..] == Step(rho, gamma, g1[..], d1[..], g2[..])
  {
    for i := 0 to g.Length
      invariant forall s | 0 <= s < i :: g[s] == StepAt(rho, gamma, g1[s], d1[s], g2[s])
    {
      g[i] := -rho * gamma * d1[i] + rho * g1[i] + (1.0 - rho) * g2[i];
      StepForm(rho, gamma, g1[i], d1[i], g2[i]);
    }
  }

  lemma StepForm(rho: real, gamma: real, z: real, y: real, p: real)
    ensures -rho * gamma * y + rho * z + (1.0 - rho) * p == StepAt(rho, gamma, z, y, p)
  {
    assert rho * (z - gamma * y) == rho * z - rho * gamma * y;
  }

  /** A buffer that holds a matrix. */
  ghost predicate Holds(TB: array2<real>, M: seq<Vec>)
    reads TB
  {
    IsMatrix(M, TB.Length0, TB.Length1) && forall r, c | 0 <= r < TB.Length0 && 0 <= c < TB.Length1 ::
        TB[r, c] == M[r][c]
  }

  method Clear(TB: array2<real>)
    modifies TB
    ensures forall r, c | 0 <= r < TB.Length0 && 0 <= c < TB.Length1 :: TB[r, c] == 0.0
  {
    for i := 0 to TB.Length0
      invariant forall r, c | 0 <= r < i && 0 <= c < TB.Length1 :: TB[r, c] == 0.0
    {
      for j := 0 to TB.Length1
        invariant forall r, c | 0 <= r < i && 0 <= c < TB.Length1 :: TB[r, c] == 0.0
        invariant forall c | 0 <= c < j :: TB[i, c] == 0.0
      {
        TB[i, j] := 0.0;
      }
    }
  }

  /** T into the upper left corner of a cleared matrix. */
  method FillCorner(p: Block, TB: array2<real>)
    requires p.Valid() && TB.Length0 == TB.Length1 == p.N()
    requires forall r, c | 0 <= r < TB.Length0 && 0 <= c < TB.Length1 :: TB[r, c] == 0.0
    modifies TB
    ensures forall r, c | 0 <= r < TB.Length0 && 0 <= c < TB.Length1 ::
              TB[r, c] == if r < p.s && c < p.s then p.T[r][c] else 0.0
  {
    var s := p.s;
    for i := 0 to s
      invariant forall r, c | 0 <= r < TB.Length0 && 0 <= c < TB.Length1 ::
                  TB[r, c] == if r < i && c < s then p.T[r][c] else 0.0
    {
      for j := 0 to s
        invariant forall r, c | 0 <= r < TB.Length0 && 0 <= c < TB.Length1 ::
                    TB[r, c] == if (r < i && c < s) || (r == i && c < j) then p.T[r][c] else 0.0
      {
        TB[i, j] := p.T[i][j];
      }
    }
  }

  method FillT(p: Block, TB: array2<real>)
    requires p.Valid() && TB.Length0 == TB.Length1 == p.N()
    modifies TB
    ensures Holds(TB, TPart(p))
  {
    hide FromE;
    Clear(TB);
    FillCorner(p, TB);
    var s := p.s;
    assert forall r, c | 0 <= r < s && 0 <= c < TB.Length1 :: TB[r, c] == TEntry(p, r, c);
    for i := s to 2 * s + 1
      invariant forall r, c | 0 <= r < i && 0 <= c < TB.Length1 :: TB[r, c] == TEntry(p, r, c)
      invariant forall r, c | i <= r < TB.Length0 && 0 <= c < TB.Length1 :: TB[r, c] == 0.0
    {
      for j := s to 2 * s + 1
        invariant forall r, c | 0 <= r < i && 0 <= c < TB.Length1 :: TB[r, c] == TEntry(p, r, c)
        invariant forall r, c | i < r < TB.Length0 && 0 <= c < TB.Length1 :: TB[r, c] == 0.0
        invariant forall c | 0 <= c < j - 1 :: TB[i, c] == TEntry(p, i, c)
        invariant forall c | j - 1 <= c < TB.Length1 :: TB[i, c] == 0.0
      {
        TB[i, j - 1] := FromE(p, i - s, j - s);
      }
    }
  }

  method FillB(p: Block, TB: array2<real>)
    requires p.Valid() && TB.Length0 == TB.Length1 == p.N()
    modifies TB
    ensures Holds(TB, BPart(p))
  {
    Clear(TB);
    var s := p.s;
    for i := s to 2 * s + 1
      invariant forall r, c | 0 <= r < TB.Length0 && 0 <= c < TB.Length1 ::
                  TB[r, c] == if r < i then BEntry(p, r, c) else 0.0
    {
      for j := s to 2 * s
        invariant forall r, c | 0 <= r < TB.Length0 && 0 <= c < TB.Length1 ::
                    TB[r, c] == if r < i || (r == i && c < j) then BEntry(p, r, c) else 0.0
      {
        TB[i, j] := p.B[i - s][j - s];
      }
    }
  }

  /** out = TB * v. */
  method Multiply(TB: array2<real>, ghost M: seq<Vec>, v: array<real>, out: array<real>)
    requires Holds(TB, M) && TB.Length0 == out.Length && TB.Length1 == v.Length && v != out
    modifies out
    ensures out[..] == Apply(M, v[..])
  {
    ghost var w := v[..];
    for i := 0 to out.Length
      invariant forall r | 0 <= r < i :: out[r] == Dot(M[r], w)
    {
      out[i] := 0.0;
      for j := 0 to v.Length
        invariant forall r | 0 <= r < i :: out[r] == Dot(M[r], w)
        invariant out[i] == DotTo(M[i], w, j)
      {
        out[i] := out[i] + TB[i, j] * v[j];
      }
    }
  }

  /** d = d - rho * gamma * t. */
  method Subtract(rho: real, gamma: real, t: array<real>, d: array<real>)
    requires t.Length == d.Length && t != d
    modifies d
    ensures d[..] == Minus(old(d[..]), Scaled(rho * gamma, t[..]))
  {
    ghost var want := Minus(old(d[..]), Scaled(rho * gamma, t[..]));
    for i := 0 to d.Length
      invariant forall s | 0 <= s < i :: d[s] == want[s]
      invariant forall s | i <= s < d.Length :: d[s] == old(d[s])
    {
      d[i] := d[i] - rho * gamma * t[i];
    }
  }

  /** dsk from dsk_1 and dsk_2; TB and t are work space. */
  method NextD(p: Block, rho: real, gamma: real, d1: array<real>, d2: array<real>, TB: array2<real>, t: array<real>,
               d: array<real>)
    requires p.Valid() && TB.Length0 == TB.Length1 == p.N() == d1.Length == d2.Length == t.Length == d.Length
    requires d != d1 && d != d2 && d != t && t != d1 && t != d2
    modifies TB, t, d
    ensures d[..] == Step(rho, gamma, d1[..], Apply(Operator(p), d1[..]), d2[..])
  {
    ghost var v1, v2 := d1[..], d2[..];
    ghost var a := Plus(Scaled(rho, v1), Scaled(1.0 - rho, v2));
    for i := 0 to d.Length
      invariant d1[..] == v1 && d2[..] == v2
      invariant forall s | 0 <= s < i :: d[s] == a[s]
    {
      d[i] := rho * d1[i] + (1.0 - rho) * d2[i];
    }
    assert d[..] == a;
    FillT(p, TB);
    Multiply(TB, TPart(p), d1, t);
    Subtract(rho, gamma, t, d);
    FillB(p, TB);
    Multiply(TB, BPart(p), d1, t);
    Subtract(rho, gamma, t, d);
    TwoParts(p, rho, gamma, v1, v2, d[..]);
  }

  lemma TwoParts(p: Block, rho: real, gamma: real, v1: Vec, v2: Vec, d: Vec)
    requires p.Valid() && |v1| == |v2| == p.N()
    requires d == Minus(Minus(Plus(Scaled(rho, v1), Scaled(1.0 - rho, v2)), Scaled(rho * gamma, Apply(TPart(p), v1))),
             Scaled(rho * gamma, Apply(BPart(p), v1)))
    ensures d == Step(rho, gamma, v1, Apply(Operator(p), v1), v2)
  {
    hide StepAt, DotTo, TEntry, BEntry;
    forall i | 0 <= i < p.N()
      ensures d[i] == StepAt(rho, gamma, v1[i], Dot(Operator(p)[i], v1), v2[i])
    {
      DotOfSum(TPart(p)[i], BPart(p)[i], v1, p.N());
      TwoPartsRing(rho, gamma, v1[i], Dot(TPart(p)[i], v1), Dot(BPart(p)[i], v1), v2[i]);
    }
  }

  lemma TwoPartsRing(rho: real, gamma: real, z: real, t: real, b: real, p: real)
    ensures rho * z + (1.0 - rho) * p - rho * gamma * t - rho * gamma * b == StepAt(rho, gamma, z, t + b, p)
  {
    assert rho * (z - gamma * (t + b)) == rho * z - rho * gamma * t - rho * gamma * b;
  }

  lemma {:induction false} DotOfSum(u: Vec, v: Vec, w: Vec, n: nat)
    requires |u| == |v| == |w| && n <= |u|
    ensures DotTo(Plus(u, v), w, n) == DotTo(u, w, n) + DotTo(v, w, n)
  {
    if n > 0 {
      DotOfSum(u, v, w, n - 1);
      SumRing(Plus(u, v)[n - 1], u[n - 1], v[n - 1], w[n - 1]);
    }
  }

  lemma SumRing(q: real, a: real, b: real, w: real)
    requires q == a + b
    ensures q * w == a * w + b * w
  {
  }

  /** The quadratic form g^T (Gk d). */
  method Bilinear(Gk: seq<Vec>, d: array<real>, g: array<real>, t: array<real>) returns (r: real)
    requires d.Length == g.Length == t.Length && IsMatrix(Gk, d.Length, d.Length) && t != d && t != g
    modifies t
    ensures r == Dot(Apply(Gk, d[..]), g[..])
  {
    ghost var v := d[..];
    for i := 0 to t.Length
      invariant forall s | 0 <= s < i :: t[s] == Dot(Gk[s], v)
    {
      t[i] := 0.0;
      for j := 0 to d.Length
        invariant forall s | 0 <= s < i :: t[s] == Dot(Gk[s], v)
        invariant t[i] == DotTo(Gk[i], v, j)
      {
        t[i] := t[i] + Gk[i][j] * d[j];
      }
    }
    r := 0.0;
    assert t[..] == Apply(Gk, v);
    for i := 0 to g.Length
      invariant r == DotTo(t[..], g[..], i)
    {
      r := r + t[i] * g[i];
    }
  }

  /** What the caller passes in besides the block: the scalars of the last inner step. */
  datatype Entry = Entry(k: nat, rho: real, gamma: real, myu: real)

  /** rho from the current and the previous scalars. */
  function NextRho(first: bool, gamma: real, gamma1: real, myu: real, myu1: real, rho: real): real {
    if first then 1.0 else Over(1.0, 1.0 - Over(Over(Over(gamma, gamma1) * myu, myu1), rho))
  }

  /** The scalars before inner step j, counted from 1. */
  function Before(e: real, vals: seq<real>, j: nat): real
    requires 1 <= j <= |vals| + 1
  {
    if j == 1 then e else vals[j - 2]
  }

  /** Inner step j: g and d hold the coordinates of steps 0 .. j. */
  ghost predicate InnerStep(p: Block, e: Entry, g: seq<Vec>, d: seq<Vec>, rho: seq<real>, gamma: seq<real>,
                            myu: seq<real>, j: nat)
    requires p.Valid() && 1 <= j < |g| && |d| == |g| && |rho| == |gamma| == |myu| && j <= |rho|
    requires forall i | 0 <= i < |g| :: |g[i]| == |d[i]| == p.N()
  {
    && g[j] == (if j == 1 then Unit(p.N(), p.s) else Step(rho[j - 2], gamma[j - 2], g[j - 1], d[j - 1], g[j - 2]))
    && d[j] == (if j == 1 then FirstD(p)
                else Step(rho[j - 2], gamma[j - 2], d[j - 1], Apply(Operator(p), d[j - 1]), d[j - 2]))
    && myu[j - 1] == Dot(Apply(p.Gk, g[j]), g[j])
    && gamma[j - 1] == Over(myu[j - 1], Dot(Apply(p.Gk, d[j]), g[j]))
    && rho[j - 1] == NextRho(p.s * e.k + j == 1, gamma[j - 1], Before(e.gamma, gamma, j), myu[j - 1],
                             Before(e.myu, myu, j), Before(e.rho, rho, j))
  }

  /** The inner steps 1 .. m. */
  ghost predicate Inner(p: Block, e: Entry, g: seq<Vec>, d: seq<Vec>, rho: seq<real>, gamma: seq<real>, myu: seq<real>,
                        m: nat)
  {
    && p.Valid() && |g| == |d| == m + 1 && |rho| == |gamma| == |myu| == m
    && (forall i | 0 <= i < |g| :: |g[i]| == |d[i]| == p.N())
    && (forall j: nat | 1 <= j <= m :: InnerStep(p, e, g, d, rho, gamma, myu, j))
  }

  /** An inner step does not depend on later ones. */
  lemma StepKept(p: Block, e: Entry, g: seq<Vec>, d: seq<Vec>, rho: seq<real>, gamma: seq<real>, myu: seq<real>, m: nat,
                 gn: Vec, dn: Vec, r: real, ga: real, my: real, j: nat)
    requires Inner(p, e, g, d, rho, gamma, myu, m) && |gn| == |dn| == p.N() && 1 <= j <= m
    ensures InnerStep(p, e, g + [gn], d + [dn], rho + [r], gamma + [ga], myu + [my], j)
  {
    hide Step, FirstD, Dot, Apply, NextRho, Operator, Over, Unit;
    assert InnerStep(p, e, g, d, rho, gamma, myu, j);
    if j > 1 {
      assert (g + [gn])[j - 2] == g[j - 2] && (g + [gn])[j - 1] == g[j - 1];
      assert (d + [dn])[j - 2] == d[j - 2] && (d + [dn])[j - 1] == d[j - 1];
    }
  }

  lemma InnerGrows(p: Block, e: Entry, g: seq<Vec>, d: seq<Vec>, rho: seq<real>, gamma: seq<real>, myu: seq<real>,
                   m: nat,
                   gn: Vec, dn: Vec, r: real, ga: real, my: real)
    requires Inner(p, e, g, d, rho, gamma, myu, m) && |gn| == |dn| == p.N()
    requires InnerStep(p, e, g + [gn], d + [dn], rho + [r], gamma + [ga], myu + [my], m + 1)
    ensures Inner(p, e, g + [gn], d + [dn], rho + [r], gamma + [ga], myu + [my], m + 1)
  {
    hide InnerStep, Block.Valid;
    forall j: nat | 1 <= j <= m
      ensures InnerStep(p, e, g + [gn], d + [dn], rho + [r], gamma + [ga], myu + [my], j)
    {
      StepKept(p, e, g, d, rho, gamma, myu, m, gn, dn, r, ga, my, j);
    }
  }

  /** The first half of an inner step: the buffers move on and the newest pair is formed. */
  method Advance(p: Block, first: bool, rho: real, gamma: real, TB: array2<real>, t: array<real>,
                 dsk: array<real>, dsk1: array<real>, dsk2: array<real>,
                 gsk: array<real>, gsk1: array<real>, gsk2: array<real>)
    requires p.Valid() && TB.Length0 == TB.Length1 == t.Length == p.N()
    requires dsk.Length == dsk1.Length == dsk2.Length == gsk.Length == gsk1.Length == gsk2.Length == p.N()
    requires Distinct(dsk, dsk1, dsk2, gsk, gsk1, gsk2) && t !in {dsk, dsk1, dsk2, gsk, gsk1, gsk2}
    modifies TB, t, dsk, dsk1, dsk2, gsk, gsk1, gsk2
    ensures gsk1[..] == old(gsk[..]) && dsk1[..] == old(dsk[..])
    ensures first ==> gsk[..] == Unit(p.N(), p.s) && dsk[..] == FirstD(p)
    ensures !first ==> gsk[..] == Step(rho, gamma, old(gsk[..]), old(dsk[..]), old(gsk1[..]))
    ensures !first ==> dsk[..] == Step(rho, gamma, old(dsk[..]), Apply(Operator(p), old(dsk[..])), old(dsk1[..]))
  {
    hide Step, FirstD, Apply, Over, Operator, Unit;
    Shift(dsk, dsk1, dsk2, gsk, gsk1, gsk2);
    if first {
      Begin(p, dsk, gsk);
    } else {
      NextG(rho, gamma, dsk1, gsk1, gsk2, gsk);
      NextD(p, rho, gamma, dsk1, dsk2, TB, t, dsk);
    }
  }

  /** The second half: the scalars of the step, from the scalars of the last one. */
  method Scalars(p: Block, first: bool, rho1: real, gamma1: real, myu1: real,
                 dsk: array<real>, gsk: array<real>, t: array<real>) returns (rho: real, gamma: real, myu: real)
    requires p.Valid() && dsk.Length == gsk.Length == t.Length == p.N() && t != dsk && t != gsk
    modifies t
    ensures myu == Dot(Apply(p.Gk, gsk[..]), gsk[..])
    ensures gamma == Over(myu, Dot(Apply(p.Gk, dsk[..]), gsk[..]))
    ensures rho == NextRho(first, gamma, gamma1, myu, myu1, rho1)
  {
    hide Dot, Apply, Over, NextRho;
    myu := Bilinear(p.Gk, gsk, gsk, t);
    var nyu := Bilinear(p.Gk, dsk, gsk, t);
    gamma := Over(myu, nyu);
    rho := NextRho(first, gamma, gamma1, myu, myu1, rho1);
  }

  /**
   pre_inner: the rows it records are the coordinates of the inner steps.  gs are the coordinates
   of the residuals themselves, which the code only keeps for two steps.
   */
  method PreInner(p: Block, e: Entry, dsk: array<real>, dsk1: array<real>, dsk2: array<real>,
                  gsk: array<real>, gsk1: array<real>, gsk2: array<real>)
    returns (dskNew: seq<Vec>, rhoNew: seq<real>, gammaNew: seq<real>, myuNew: seq<real>, ghost gs: seq<Vec>)
    requires p.Valid()
    requires dsk.Length == dsk1.Length == dsk2.Length == gsk.Length == gsk1.Length == gsk2.Length == p.N()
    requires Distinct(dsk, dsk1, dsk2, gsk, gsk1, gsk2)
    modifies dsk, dsk1, dsk2, gsk, gsk1, gsk2
    ensures |gs| == p.s + 1 && gs[0] == old(gsk[..])
    ensures Inner(p, e, gs, [old(dsk[..])] + dskNew, rhoNew, gammaNew, myuNew, p.s)
    ensures gsk[..] == gs[p.s] && dsk[..] == dskNew[p.s - 1]
  {
    hide Step, FirstD, Apply, Over, InnerStep, Operator, NextRho, Dot, Unit;
    var TB := new real[p.N(), p.N()];
    var t := new real[p.N()];
    var rho, gamma, myu := e.rho, e.gamma, e.myu;
    dskNew, rhoNew, gammaNew, myuNew := [], [], [], [];
    ghost var ds := [dsk[..]];
    gs := [gsk[..]];
    for j := 1 to p.s + 1
      invariant Inner(p, e, gs, ds, rhoNew, gammaNew, myuNew, j - 1)
      invariant gs[0] == old(gsk[..]) && ds == [old(dsk[..])] + dskNew
      invariant gsk[..] == gs[j - 1] && dsk[..] == ds[j - 1]
      invariant j > 1 ==> gsk1[..] == gs[j - 2] && dsk1[..] == ds[j - 2]
      invariant rho == Before(e.rho, rhoNew, j) && gamma == Before(e.gamma, gammaNew, j)
      invariant myu == Before(e.myu, myuNew, j)
    {
      Advance(p, j == 1, rho, gamma, TB, t, dsk, dsk1, dsk2, gsk, gsk1, gsk2);
      rho, gamma, myu := Scalars(p, p.s * e.k + j == 1, rho, gamma, myu, dsk, gsk, t);
      ghost var g, d := gsk[..], dsk[..];
      MakeStep(p, e, gs, ds, rhoNew, gammaNew, myuNew, j, g, d, rho, gamma, myu);
      InnerGrows(p, e, gs, ds, rhoNew, gammaNew, myuNew, j - 1, g, d, rho, gamma, myu);
      gs, ds := gs + [g], ds + [d];
      dskNew := dskNew + [dsk[..]];
      rhoNew, gammaNew, myuNew := rhoNew + [rho], gammaNew + [gamma], myuNew + [myu];
    }
  }

  lemma MakeStep(p: Block, e: Entry, gs: seq<Vec>, ds: seq<Vec>, rho: seq<real>, gamma: seq<real>, myu: seq<real>,
                 j: nat,
                 g: Vec, d: Vec, r: real, ga: real, my: real)
    requires 1 <= j && Inner(p, e, gs, ds, rho, gamma, myu, j - 1) && |g| == |d| == p.N()
    requires j == 1 ==> g == Unit(p.N(), p.s) && d == FirstD(p)
    requires j > 1 ==>
               && g == Step(rho[j - 2], gamma[j - 2], gs[j - 1], ds[j - 1], gs[j - 2])
               && d == Step(rho[j - 2], gamma[j - 2], ds[j - 1], Apply(Operator(p), ds[j - 1]), ds[j - 2])
    requires my == Dot(Apply(p.Gk, g), g) && ga == Over(my, Dot(Apply(p.Gk, d), g))
    requires r == NextRho(p.s * e.k + j == 1, ga, Before(e.gamma, gamma, j), my, Before(e.myu, myu, j),
             Before(e.rho, rho, j))
    ensures InnerStep(p, e, gs + [g], ds + [d], rho + [r], gamma + [ga], myu + [my], j)
  {
    hide Step, FirstD, Dot, Apply, NextRho, Operator, Over;
  }

  /** The first d is the operator applied to the first g, when the small matrices are shaped as documented. */
  lemma FirstTracks(p: Block)
    requires p.Valid() && p.Shaped()
    ensures FirstD(p) == Apply(Operator(p), Unit(p.N(), p.s))
  {
    ApplyUnit(Operator(p), p.N(), p.s);
    forall r | 0 <= r < p.N()
      ensures FirstD(p)[r] == Operator(p)[r][p.s]
    {
      assert Operator(p)[r][p.s] == TEntry(p, r, p.s) + BEntry(p, r, p.s);
    }
  }

  /** In every inner step d_j is the operator applied to g_j. */
  lemma {:induction false} CoordinatesTrack(p: Block, e: Entry, g: seq<Vec>, d: seq<Vec>, rho: seq<real>,
                                            gamma: seq<real>,
                                            myu: seq<real>, m: nat, j: nat)
    requires Inner(p, e, g, d, rho, gamma, myu, m) && p.Shaped() && j <= m
    requires d[0] == Apply(Operator(p), g[0])
    ensures d[j] == Apply(Operator(p), g[j])
    ensures j >= 1 ==> d[j - 1] == Apply(Operator(p), g[j - 1])
  {
    hide Step, FirstD, Apply, Operator, Over, NextRho, Dot, Block.Shaped;
    if j > 0 {
      CoordinatesTrack(p, e, g, d, rho, gamma, myu, m, j - 1);
      assert InnerStep(p, e, g, d, rho, gamma, myu, j);
      if j == 1 {
        FirstTracks(p);
      } else {
        ApplyStep(Operator(p), rho[j - 2], gamma[j - 2], g[j - 1], d[j - 1], g[j - 2]);
      }
    }
  }
}
