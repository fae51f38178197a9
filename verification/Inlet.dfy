/**
 Volume fractions of the solutes at an inlet (jupiter/boundary.c, bcvf_inlet 788-816 and the INLET
 branch of bcvf_calc 861-921): in every ghost layer one component with a share is the pivot, and the
 others are set relative to it.
 */
module Inlet {
  import opened Layout

  /** One line of ghosts: base cell jj, offset to the next ghost, number of layers, m cells per component. */
  datatype Line = Line(m: nat, jj: int, offset: int, size: nat, vp: seq<real>) {

    predicate Fits(len: nat) {
      && len == |vp| * m && offset != 0 && 0 <= jj < m
      && forall j | 1 <= j <= size :: 0 <= Cell(j) < m
    }

    /** The cell of layer j. */
    function Cell(j: int): int {
      jj + j * offset
    }

    /** Where component i keeps layer j. */
    function At(i: int, j: int): int {
      m * i + Cell(j)
    }
  }

  lemma AtBound(l: Line, len: nat, i: nat, j: nat)
    requires l.Fits(len) && i < |l.vp| && 1 <= j <= l.size
    ensures 0 <= l.At(i, j) < len
  {
    assert 0 <= l.Cell(j) < l.m;
    MulStep(i, |l.vp|, l.m);
    assert l.m * i == i * l.m;
  }

  lemma AtInjective(l: Line, len: nat, i: nat, j: nat, i': nat, j': nat)
    requires l.Fits(len) && i < |l.vp| && i' < |l.vp| && 1 <= j <= l.size && 1 <= j' <= l.size
    ensures l.At(i, j) == l.At(i', j') ==> i == i' && j == j'
  {
    assert 0 <= l.Cell(j) < l.m && 0 <= l.Cell(j') < l.m;
    if l.At(i, j) == l.At(i', j') {
      MulStep(i, i', l.m);
      MulStep(i', i, l.m);
      assert l.m * i == i * l.m && l.m * i' == i' * l.m;
      assert (j - j') * l.offset == 0;
    }
  }

  /** The weight of component i in layer j: Vp times Y. */
  function Weight(l: Line, y: seq<real>, i: nat, j: nat): real
    requires l.Fits(|y|) && i < |l.vp| && 1 <= j <= l.size
  {
    AtBound(l, |y|, i, j);
    l.vp[i] * y[l.At(i, j)]
  }

  /** The weights of the first n components. */
  function Total(l: Line, y: seq<real>, j: nat, n: nat): real
    requires l.Fits(|y|) && n <= |l.vp| && 1 <= j <= l.size
  {
    if n == 0 then 0.0 else Total(l, y, j, n - 1) + Weight(l, y, n - 1, j)
  }

  ghost predicate NonNegative(l: Line, y: seq<real>)
    requires l.Fits(|y|)
  {
    forall i: nat, j: nat | i < |l.vp| && 1 <= j <= l.size :: Weight(l, y, i, j) >= 0.0
  }

  /** The share of component i in layer j; none has one when all weights are zero. */
  function Fraction(l: Line, y: seq<real>, i: nat, j: nat): real
    requires l.Fits(|y|) && i < |l.vp| && 1 <= j <= l.size
  {
    var total := Total(l, y, j, |l.vp|);
    if total == 0.0 then 0.0 else Weight(l, y, i, j) / total
  }

  function SumOfFractions(l: Line, y: seq<real>, j: nat, n: nat): real
    requires l.Fits(|y|) && n <= |l.vp| && 1 <= j <= l.size
  {
    if n == 0 then 0.0 else SumOfFractions(l, y, j, n - 1) + Fraction(l, y, n - 1, j)
  }

  lemma {:induction false} SumIsQuotient(l: Line, y: seq<real>, j: nat, n: nat)
    requires l.Fits(|y|) && n <= |l.vp| && 1 <= j <= l.size && Total(l, y, j, |l.vp|) != 0.0
    ensures SumOfFractions(l, y, j, n) == Total(l, y, j, n) / Total(l, y, j, |l.vp|)
  {
    hide Weight;
    if n > 0 {
      SumIsQuotient(l, y, j, n - 1);
      AddQuotients(Total(l, y, j, n - 1), Weight(l, y, n - 1, j), Total(l, y, j, |l.vp|));
    }
  }

  lemma AddQuotients(a: real, b: real, t: real)
    requires t != 0.0
    ensures a / t + b / t == (a + b) / t
  {
  }

  /** A total is at least each of its weights. */
  lemma {:induction false} TotalBounds(l: Line, y: seq<real>, j: nat, n: nat, i: nat)
    requires l.Fits(|y|) && NonNegative(l, y) && n <= |l.vp| && 1 <= j <= l.size
    ensures Total(l, y, j, n) >= 0.0
    ensures i < n ==> Weight(l, y, i, j) <= Total(l, y, j, n)
  {
    hide Weight;
    if n > 0 {
      TotalBounds(l, y, j, n - 1, i);
    }
  }

  /** The fractions of a layer sum to one, or are all zero exactly when every weight is. */
  lemma FractionsSumToOne(l: Line, y: seq<real>, j: nat)
    requires l.Fits(|y|) && NonNegative(l, y) && 1 <= j <= l.size
    ensures SumOfFractions(l, y, j, |l.vp|) == 1.0 || forall i: nat | i < |l.vp| :: Fraction(l, y, i, j) == 0.0
    ensures SumOfFractions(l, y, j, |l.vp|) == 1.0 <==> exists i: nat :: i < |l.vp| && Weight(l, y, i, j) != 0.0
  {
    hide Weight;
    var t := Total(l, y, j, |l.vp|);
    if t != 0.0 {
      SumIsQuotient(l, y, j, |l.vp|);
      assert t / t == 1.0;
      SomeWeight(l, y, j, |l.vp|);
    } else {
      ZeroFractions(l, y, j, |l.vp|);
      forall i: nat | i < |l.vp|
        ensures Weight(l, y, i, j) == 0.0
      {
        TotalBounds(l, y, j, |l.vp|, i);
      }
    }
  }

  lemma {:induction false} ZeroFractions(l: Line, y: seq<real>, j: nat, n: nat)
    requires l.Fits(|y|) && n <= |l.vp| && 1 <= j <= l.size && Total(l, y, j, |l.vp|) == 0.0
    ensures SumOfFractions(l, y, j, n) == 0.0
  {
    hide Weight;
    if n > 0 {
      ZeroFractions(l, y, j, n - 1);
    }
  }

  lemma {:induction false} SomeWeight(l: Line, y: seq<real>, j: nat, n: nat)
    requires l.Fits(|y|) && n <= |l.vp| && 1 <= j <= l.size && Total(l, y, j, n) != 0.0
    ensures exists i: nat :: i < n && Weight(l, y, i, j) != 0.0
  {
    hide Weight;
    if Weight(l, y, n - 1, j) == 0.0 {
      SomeWeight(l, y, j, n - 1);
    }
  }

  /** They are proportional to the weights. */
  lemma FractionsAreProportional(l: Line, y: seq<real>, j: nat, i: nat, k: nat)
    requires l.Fits(|y|) && 1 <= j <= l.size && i < |l.vp| && k < |l.vp|
    ensures Fraction(l, y, i, j) * Weight(l, y, k, j) == Fraction(l, y, k, j) * Weight(l, y, i, j)
  {
    hide Weight, Total;
    var t, a, b := Total(l, y, j, |l.vp|), Weight(l, y, i, j), Weight(l, y, k, j);
    if t != 0.0 {
      CrossQuotients(a, b, t);
    }
  }

  lemma CrossQuotients(a: real, b: real, t: real)
    requires t != 0.0
    ensures a / t * b == b / t * a
  {
    assert a / t * b == (a * b) / t && b / t * a == (b * a) / t;
  }

  /** The first component with a weight in layer j, or -1. */
  method FindPivot(l: Line, y: array<real>, j: nat) returns (pivot: int)
    requires l.Fits(y.Length) && 1 <= j <= l.size
    ensures -1 <= pivot < |l.vp|
    ensures pivot >= 0 ==> Weight(l, y[..], pivot, j) != 0.0
    ensures pivot == -1 ==> forall i: nat | i < |l.vp| :: Weight(l, y[..], i, j) == 0.0
  {
    hide Line.Fits, Line.At;
    pivot := -1;
    for i := 0 to |l.vp|
      invariant pivot == -1 && forall k: nat | k < i :: Weight(l, y[..], k, j) == 0.0
    {
      AtBound(l, y.Length, i, j);
      var y0 := y[l.At(i, j)];
      y0 := l.vp[i] * y0;
      if y0 != 0.0 {
        pivot := i;
        break;
      }
    }
  }

  /** The sum the pivot's fraction is the inverse of. */
  method Denominator(l: Line, y: array<real>, j: nat, pivot: nat) returns (d: real)
    requires l.Fits(y.Length) && 1 <= j <= l.size && pivot < |l.vp| && Weight(l, y[..], pivot, j) != 0.0
    ensures d * Weight(l, y[..], pivot, j) == Total(l, y[..], j, |l.vp|)
  {
    hide Line.Fits, Line.At, Weight, Total;
    ghost var w := Weight(l, y[..], pivot, j);
    d := 1.0;
    TotalStarts(l, y[..], j, w);
    for i := 0 to |l.vp|
      invariant d * w == Total(l, y[..], j, i) + if i <= pivot then w else 0.0
    {
      WeightIs(l, y[..], i, j);
      WeightIs(l, y[..], pivot, j);
      AtBound(l, y.Length, i, j);
      AtBound(l, y.Length, pivot, j);
      TotalGrows(l, y[..], j, i);
      if i == pivot {
        continue;
      }
      var yi := y[l.At(i, j)];
      var y0 := y[l.At(pivot, j)];
      AddShare(d, l.vp[i] * yi, l.vp[pivot] * y0);
      d := d + (l.vp[i] * yi) / (l.vp[pivot] * y0);
    }
  }

  lemma WeightIs(l: Line, y: seq<real>, i: nat, j: nat)
    requires l.Fits(|y|) && i < |l.vp| && 1 <= j <= l.size
    ensures 0 <= l.At(i, j) < |y| && Weight(l, y, i, j) == l.vp[i] * y[l.At(i, j)]
  {
    AtBound(l, |y|, i, j);
  }

  lemma TotalStarts(l: Line, y: seq<real>, j: nat, w: real)
    requires l.Fits(|y|) && 1 <= j <= l.size
    ensures 1.0 * w == Total(l, y, j, 0) + w
  {
  }

  lemma TotalGrows(l: Line, y: seq<real>, j: nat, i: nat)
    requires l.Fits(|y|) && i < |l.vp| && 1 <= j <= l.size
    ensures Total(l, y, j, i + 1) == Total(l, y, j, i) + Weight(l, y, i, j)
  {
    hide Weight;
  }

  lemma AddShare(d: real, a: real, w: real)
    requires w != 0.0
    ensures (d + a / w) * w == d * w + a
  {
    assert a / w * w == a;
  }

  /** A layer's pivot with its Vp and its fraction, or -1. */
  ghost predicate IsPivot(l: Line, y: seq<real>, j: nat, pivot: int, vp0: real, vf0: real)
    requires l.Fits(|y|) && 1 <= j <= l.size
  {
    && -1 <= pivot < |l.vp|
    && (pivot >= 0 ==>
          && Weight(l, y, pivot, j) != 0.0 && vp0 == l.vp[pivot]
          && vf0 == Fraction(l, y, pivot, j) && Total(l, y, j, |l.vp|) != 0.0)
    && (pivot == -1 ==> forall i: nat | i < |l.vp| :: Fraction(l, y, i, j) == 0.0)
  }

  /** The pivots of the first n layers; layer k + 1 is kept at position k. */
  ghost predicate PivotsFound(l: Line, y: seq<real>, pivots: seq<int>, vp0: seq<real>, vf0: seq<real>, n: nat)
    requires l.Fits(|y|) && n <= l.size
  {
    && |pivots| == |vp0| == |vf0| == l.size
    && forall k: nat | k < n :: IsPivot(l, y, k + 1, pivots[k], vp0[k], vf0[k])
  }

  /** The fraction of the pivot is one over the denominator. */
  lemma PivotFraction(l: Line, y: seq<real>, j: nat, pivot: nat, d: real)
    requires l.Fits(|y|) && NonNegative(l, y) && 1 <= j <= l.size && pivot < |l.vp|
    requires Weight(l, y, pivot, j) != 0.0 && d * Weight(l, y, pivot, j) == Total(l, y, j, |l.vp|)
    ensures d != 0.0 && Total(l, y, j, |l.vp|) > 0.0 && 1.0 / d == Fraction(l, y, pivot, j)
  {
    hide Weight, Total;
    TotalBounds(l, y, j, |l.vp|, pivot);
    InverseOf(d, Weight(l, y, pivot, j), Total(l, y, j, |l.vp|));
  }

  lemma InverseOf(d: real, w: real, t: real)
    requires d * w == t && t != 0.0
    ensures d != 0.0 && 1.0 / d == w / t
  {
    assert d == 0.0 ==> d * w == 0.0;
    assert t / d == w;
    assert (1.0 / d) * t == w;
  }

  lemma NoPivot(l: Line, y: seq<real>, j: nat)
    requires l.Fits(|y|) && 1 <= j <= l.size && forall i: nat | i < |l.vp| :: Weight(l, y, i, j) == 0.0
    ensures forall i: nat | i < |l.vp| :: Fraction(l, y, i, j) == 0.0
  {
    hide Weight;
    assert forall i: nat | i < |l.vp| :: Fraction(l, y, i, j) == 0.0;
  }

  method FindPivots(l: Line, y: array<real>) returns (pivots: array<int>, vp0: array<real>, vf0: array<real>)
    requires l.Fits(y.Length) && NonNegative(l, y[..])
    ensures fresh(pivots) && fresh(vp0) && fresh(vf0) && PivotsFound(l, y[..], pivots[..], vp0[..], vf0[..], l.size)
  {
    hide Line.Fits, Line.At, Weight, Total, Fraction, NonNegative, IsPivot;
    pivots, vp0, vf0 := new int[l.size], new real[l.size], new real[l.size];
    for j := 1 to l.size + 1
      invariant PivotsFound(l, y[..], pivots[..], vp0[..], vf0[..], j - 1)
    {
      var p := FindPivot(l, y, j);
      pivots[j - 1] := p;
      if p >= 0 {
        vp0[j - 1] := l.vp[p];
        var d := Denominator(l, y, j, p);
        PivotFraction(l, y[..], j, p, d);
        vf0[j - 1] := 1.0 / d;
      } else {
        vp0[j - 1] := 0.0;
        vf0[j - 1] := 0.0;
        NoPivot(l, y[..], j);
      }
      MakePivot(l, y[..], j, p, vp0[j - 1], vf0[j - 1]);
    }
  }

  lemma MakePivot(l: Line, y: seq<real>, j: nat, pivot: int, vp0: real, vf0: real)
    requires l.Fits(|y|) && 1 <= j <= l.size && -1 <= pivot < |l.vp|
    requires pivot >= 0 ==>
               && Weight(l, y, pivot, j) != 0.0 && vp0 == l.vp[pivot]
               && vf0 == Fraction(l, y, pivot, j) && Total(l, y, j, |l.vp|) != 0.0
    requires pivot == -1 ==> forall i: nat | i < |l.vp| :: Fraction(l, y, i, j) == 0.0
    ensures IsPivot(l, y, j, pivot, vp0, vf0)
  {
    hide Weight, Fraction, Total;
  }

  /** vf after the layers 1 .. n of component i, and all components before it. */
  ghost predicate FractionsStored(l: Line, y: seq<real>, vf: seq<real>, was: seq<real>, i: nat, n: nat)
    requires l.Fits(|y|) && |vf| == |was| == |y|
  {
    && (forall k: nat, j: nat | k < |l.vp| && 1 <= j <= l.size && (k < i || (k == i && j <= n)) ::
          0 <= l.At(k, j) < |vf| && vf[l.At(k, j)] == Fraction(l, y, k, j))
    && (forall a | 0 <= a < |vf| && (forall k: nat, j: nat | k < |l.vp| && 1 <= j <= l.size :: a != l.At(k, j)) ::
       vf[a] == was[a])
  }

  lemma StoreFraction(l: Line, y: seq<real>, vf: seq<real>, was: seq<real>, i: nat, j: nat)
    requires l.Fits(|y|) && |vf| == |was| == |y| && i < |l.vp| && 1 <= j <= l.size
    requires FractionsStored(l, y, vf, was, i, j - 1)
    ensures 0 <= l.At(i, j) < |vf| && FractionsStored(l, y, vf[l.At(i, j) := Fraction(l, y, i, j)], was, i, j)
  {
    hide Fraction, Line.At, Line.Fits;
    AtBound(l, |y|, i, j);
    forall k: nat, n: nat | k < |l.vp| && 1 <= n <= l.size && (k < i || (k == i && n <= j))
      ensures 0 <= l.At(k, n) < |vf|
      ensures vf[l.At(i, j) := Fraction(l, y, i, j)][l.At(k, n)] == Fraction(l, y, k, n)
    {
      AtBound(l, |y|, k, n);
      AtInjective(l, |y|, i, j, k, n);
    }
  }

  /** What bcvf_inlet stores is the fraction. */
  lemma RelativeToPivot(l: Line, y: seq<real>, j: nat, i: nat, pivot: nat, w: real, vf0: real, v: real)
    requires l.Fits(|y|) && NonNegative(l, y) && 1 <= j <= l.size && i < |l.vp| && pivot < |l.vp|
    requires w == Weight(l, y, i, j) && v == Weight(l, y, pivot, j) && vf0 == Fraction(l, y, pivot, j)
    requires v != 0.0 && Total(l, y, j, |l.vp|) != 0.0
    ensures v > 0.0 && w * vf0 / v == Fraction(l, y, i, j)
  {
    hide Weight, Total;
    Cancel(w, v, Total(l, y, j, |l.vp|), vf0);
  }

  lemma Cancel(a: real, w: real, t: real, f: real)
    requires w != 0.0 && t != 0.0 && f == w / t
    ensures a * f / w == a / t
  {
    assert a * f == (a / t) * w;
    Divide(a * f, a / t, w);
  }

  lemma Divide(p: real, q: real, w: real)
    requires w != 0.0 && p == q * w
    ensures p / w == q
  {
  }

  /** bcvf_inlet for one component. */
  method BcvfInlet(l: Line, vf: array<real>, y: array<real>, i: nat, pivots: array<int>, vp0: array<real>,
                   vf0: array<real>, ghost was: seq<real>)
    requires l.Fits(y.Length) && NonNegative(l, y[..]) && vf.Length == y.Length == |was| && i < |l.vp|
    requires vf != y && vf != vp0 && vf != vf0
    requires PivotsFound(l, y[..], pivots[..], vp0[..], vf0[..], l.size) && FractionsStored(l, y[..], vf[..], was, i, 0)
    modifies vf
    ensures FractionsStored(l, y[..], vf[..], was, i, l.size)
  {
    hide Line.Fits, Line.At, Weight, Total, Fraction, NonNegative, FractionsStored;
    for j := 1 to l.size + 1
      invariant FractionsStored(l, y[..], vf[..], was, i, j - 1)
    {
      ghost var before := vf[..];
      StoreFraction(l, y[..], before, was, i, j);
      AtBound(l, y.Length, i, j);
      var p := pivots[j - 1];
      assert IsPivot(l, y[..], j - 1 + 1, p, vp0[j - 1], vf0[j - 1]);
      if p >= 0 {
        if i == p {
          vf[l.At(i, j)] := vf0[j - 1];
          assert vf[l.At(i, j)] == Fraction(l, y[..], i, j);
        } else {
          AtBound(l, y.Length, p, j);
          WeightIs(l, y[..], i, j);
          WeightIs(l, y[..], p, j);
          var yi := y[l.At(i, j)];
          var y0 := y[l.At(p, j)];
          var v := vp0[j - 1] * y0;
          var w := l.vp[i] * yi;
          RelativeToPivot(l, y[..], j, i, p, w, vf0[j - 1], v);
          vf[l.At(i, j)] := if v <= 0.0 then 0.0 else w * vf0[j - 1] / v;
          assert vf[l.At(i, j)] == Fraction(l, y[..], i, j);
        }
      } else {
        vf[l.At(i, j)] := 0.0;
        assert vf[l.At(i, j)] == Fraction(l, y[..], i, j);
      }
      assert vf[..] == before[l.At(i, j) := Fraction(l, y[..], i, j)];
    }
  }

  /** The INLET branch of bcvf_calc: every ghost gets its fraction, whichever components are the pivots. */
  method BcvfCalc(l: Line, vf: array<real>, y: array<real>)
    requires l.Fits(y.Length) && NonNegative(l, y[..]) && vf.Length == y.Length && vf != y
    modifies vf
    ensures FractionsStored(l, y[..], vf[..], old(vf[..]), |l.vp|, 0)
  {
    hide Line.Fits, Line.At, Weight, Total, Fraction, NonNegative, FractionsStored, PivotsFound;
    var pivots, vp0, vf0 := FindPivots(l, y);
    NothingStored(l, y[..], vf[..]);
    for i := 0 to |l.vp|
      invariant PivotsFound(l, y[..], pivots[..], vp0[..], vf0[..], l.size)
      invariant FractionsStored(l, y[..], vf[..], old(vf[..]), i, 0)
    {
      BcvfInlet(l, vf, y, i, pivots, vp0, vf0, old(vf[..]));
      NextComponent(l, y[..], vf[..], old(vf[..]), i);
    }
  }

  lemma NothingStored(l: Line, y: seq<real>, vf: seq<real>)
    requires l.Fits(|y|) && |vf| == |y|
    ensures FractionsStored(l, y, vf, vf, 0, 0)
  {
    hide Fraction, Line.At;
  }

  lemma NextComponent(l: Line, y: seq<real>, vf: seq<real>, was: seq<real>, i: nat)
    requires l.Fits(|y|) && |vf| == |was| == |y| && FractionsStored(l, y, vf, was, i, l.size)
    ensures FractionsStored(l, y, vf, was, i + 1, 0)
  {
    hide Fraction, Line.At;
  }

  /**
   What the loops leave in a layer, from the arrays alone: component i keeps its value at m * i plus the
   cell jj + j * offset, and any two values stand in the ratio of Vp times Y of their components.
   */
  lemma StoredRatios(l: Line, y: seq<real>, vf: seq<real>, was: seq<real>, i: nat, k: nat, j: nat)
    requires l.Fits(|y|) && |vf| == |was| == |y| && FractionsStored(l, y, vf, was, |l.vp|, 0)
    requires i < |l.vp| && k < |l.vp| && 1 <= j <= l.size
    ensures var a, b := l.m * i + l.jj + j * l.offset, l.m * k + l.jj + j * l.offset;
            && 0 <= a < |y| && 0 <= b < |y|
            && vf[a] * (l.vp[k] * y[b]) == vf[b] * (l.vp[i] * y[a])
  {
    WeightIs(l, y, i, j);
    WeightIs(l, y, k, j);
    FractionsAreProportional(l, y, j, i, k);
    hide Fraction, Weight;
    assert vf[l.At(i, j)] == Fraction(l, y, i, j) && vf[l.At(k, j)] == Fraction(l, y, k, j);
  }

  /** The first n stored values of a layer. */
  function StoredSum(l: Line, vf: seq<real>, j: nat, n: nat): real
    requires l.Fits(|vf|) && n <= |l.vp| && 1 <= j <= l.size
  {
    if n == 0 then 0.0
    else
      AtBound(l, |vf|, n - 1, j);
      StoredSum(l, vf, j, n - 1) + vf[l.m * (n - 1) + l.jj + j * l.offset]
  }

  lemma {:induction false} StoredSumIs(l: Line, y: seq<real>, vf: seq<real>, was: seq<real>, j: nat, n: nat)
    requires l.Fits(|y|) && |vf| == |was| == |y| && FractionsStored(l, y, vf, was, |l.vp|, 0)
    requires n <= |l.vp| && 1 <= j <= l.size
    ensures StoredSum(l, vf, j, n) == SumOfFractions(l, y, j, n)
  {
    hide Fraction;
    if n > 0 {
      StoredSumIs(l, y, vf, was, j, n - 1);
      assert vf[l.At(n - 1, j)] == Fraction(l, y, n - 1, j);
    }
  }

  /** And they sum to one unless no component has a share in the layer. */
  lemma StoredSumToOne(l: Line, y: seq<real>, vf: seq<real>, was: seq<real>, j: nat)
    requires l.Fits(|y|) && |vf| == |was| == |y| && FractionsStored(l, y, vf, was, |l.vp|, 0)
    requires NonNegative(l, y) && 1 <= j <= l.size
    ensures StoredSum(l, vf, j, |l.vp|) == 1.0 <==>
            exists i: nat :: i < |l.vp| && Weight(l, y, i, j) != 0.0
  {
    hide Fraction, Weight, FractionsStored, StoredSum;
    StoredSumIs(l, y, vf, was, j, |l.vp|);
    FractionsSumToOne(l, y, j);
  }
}
