/**
 Reduction of a mixture to its two leading materials (jupiter/dccalc.h, 100-176).  The code measures
 distances to the barycentres of the faces of a simplex; over the reals that is a comparison of the
 rates themselves.
 */
module Selection {

  /** A coordinate of the barycentre of the face opposite vertex j. */
  function Barycentre(n: nat, i: nat, j: nat): real
    requires n >= 1
  {
    var bary := 1.0 / (n as real);
    if i != j then (1.0 + bary) / (n as real) else bary / (n as real)
  }

  /** The contribution of coordinate i to the squared distance. */
  function Term(v: real, n: nat, i: nat, j: nat): real
    requires n >= 1
  {
    var p := v - Barycentre(n, i, j);
    p * p
  }

  /** The squared distance of a to that point, over the first m coordinates. */
  function Distance(a: seq<real>, n: nat, j: nat, m: nat): real
    requires 1 <= n <= |a| && m <= n
  {
    if m == 0 then 0.0 else Distance(a, n, j, m - 1) + Term(a[m - 1], n, m - 1, j)
  }

  /** Two faces differ only in the two coordinates of their opposite vertices. */
  lemma {:induction false} DistanceDifference(a: seq<real>, n: nat, j: nat, k: nat, m: nat)
    requires 1 <= n <= |a| && m <= n && j < n && k < n && j != k
    ensures Distance(a, n, j, m) - Distance(a, n, k, m) == Gain(a, n, j, m) - Gain(a, n, k, m)
  {
    hide Term, Opposite;
    if m > 0 {
      DistanceDifference(a, n, j, k, m - 1);
      Coordinate(a[m - 1], n, m - 1, j);
      Coordinate(a[m - 1], n, m - 1, k);
    }
  }

  /** What coordinate j adds for being opposite, once the sum has passed it. */
  function Gain(a: seq<real>, n: nat, j: nat, m: nat): real
    requires 1 <= n <= |a| && j < n
  {
    if m <= j then 0.0 else Opposite(a[j], n)
  }

  function Opposite(v: real, n: nat): real
    requires n >= 1
  {
    var d := 1.0 / (n as real);
    2.0 * d * v - d * (d + 2.0 * (d * d))
  }

  /** The common term of a coordinate, and its gain where it is opposite. */
  lemma Coordinate(v: real, n: nat, i: nat, j: nat)
    requires n >= 1
    ensures Term(v, n, i, j) == Term(v, n, i, i + 1) + if i == j then Opposite(v, n) else 0.0
  {
    var d := 1.0 / (n as real);
    Quotients(n, d);
    CoordinateRing(v, d);
  }

  lemma Quotients(n: nat, d: real)
    requires n >= 1 && d == 1.0 / (n as real)
    ensures (1.0 + d) / (n as real) == d + d * d && d / (n as real) == d * d
  {
    var r := n as real;
    assert d * r == 1.0;
    assert (d + d * d) * r == d * r + d * (d * r);
    assert (d * d) * r == d * (d * r);
  }

  lemma CoordinateRing(v: real, d: real)
    ensures (v - d * d) * (v - d * d) == (v - (d + d * d)) * (v - (d + d * d)) + (2.0 * d * v - d * (d + 2.0 * (d * d)))
  {
  }

  /** So the nearest face is opposite the smallest rate. */
  lemma NearestIsSmallest(a: seq<real>, n: nat, j: nat, k: nat)
    requires 1 <= n <= |a| && j < n && k < n
    ensures Distance(a, n, j, n) < Distance(a, n, k, n) <==> a[j] < a[k]
  {
    if j != k {
      DistanceDifference(a, n, j, k, n);
      GainOrder(a[j], a[k], n);
    }
  }

  lemma GainOrder(u: real, v: real, n: nat)
    requires n >= 1
    ensures Opposite(u, n) < Opposite(v, n) <==> u < v
  {
    var d := 1.0 / (n as real);
    assert d > 0.0;
    OrderRing(d, u, v);
  }

  lemma OrderRing(d: real, u: real, v: real)
    requires d > 0.0
    ensures 2.0 * d * u < 2.0 * d * v <==> u < v
  {
    var w := v - u;
    assert 2.0 * d * v - 2.0 * d * u == 2.0 * (d * w);
    if w > 0.0 {
      assert d * w > 0.0;
    } else if w < 0.0 {
      assert d * w < 0.0;
    }
  }

  /** The first position of the minimum. */
  predicate FirstMinimum(a: seq<real>, n: nat, id: nat) {
    && id < n <= |a|
    && (forall k | 0 <= k < n :: a[id] <= a[k])
    && (forall k | 0 <= k < id :: a[id] < a[k])
  }

  /** dc_calc_select_material. */
  method SelectMaterial(n: nat, a: array<real>) returns (id: nat)
    requires 1 <= n <= a.Length
    ensures FirstMinimum(a[..], n, id)
  {
    hide Distance, Barycentre;
    id := 0;
    var rmin := 0.0;
    for j := 0 to n
      invariant j > 0 ==> FirstMinimum(a[..], j, id) && rmin == Distance(a[..], n, id, n)
    {
      var r := DistanceOf(n, a, j);
      if j > 0 {
        NearestIsSmallest(a[..], n, j, id);
      }
      if j == 0 || rmin > r {
        rmin := r;
        id := j;
      }
    }
  }

  method DistanceOf(n: nat, a: array<real>, j: nat) returns (r: real)
    requires 1 <= n <= a.Length && j < n
    ensures r == Distance(a[..], n, j, n)
  {
    var bary := 1.0 / (n as real);
    r := 0.0;
    for i := 0 to n
      invariant r == Distance(a[..], n, j, i)
    {
      var p;
      if i != j {
        p := (1.0 + bary) / (n as real);
      } else {
        p := bary / (n as real);
      }
      p := a[i] - p;
      r := r + p * p;
    }
  }

  /** k loses against i: a smaller rate, or the same rate and an earlier place. */
  predicate Loses(a: seq<real>, k: nat, i: nat)
    requires k < |a| && i < |a|
  {
    a[k] < a[i] || (a[k] == a[i] && k < i)
  }

  /** The places still in play: increasing, with their rates in front of b, and everything else has lost. */
  ghost predicate Remaining(a: seq<real>, b: seq<real>, rems: seq<nat>, i: nat) {
    && i <= |a| == |b| == |rems|
    && (forall j | 0 <= j < |rems| :: rems[j] < |a|)
    && (forall j | 0 <= j < i :: b[j] == a[rems[j]])
    && (forall j, k | 0 <= j < k < i :: rems[j] < rems[k])
    && (forall k: nat, j: nat | k < |a| && j < i && !Kept(rems, i, k) :: Loses(a, k, rems[j]))
  }

  ghost predicate Kept(rems: seq<nat>, i: nat, k: nat)
    requires i <= |rems|
  {
    exists j: nat :: j < i && rems[j] == k
  }

  /** Dropping the first minimum. */
  lemma Dropped(a: seq<real>, b: seq<real>, rems: seq<nat>, i: nat, id: nat, b': seq<real>, rems': seq<nat>)
    requires Remaining(a, b, rems, i) && 1 <= i && FirstMinimum(b, i, id)
    requires |b'| == |b| && |rems'| == |rems|
    requires forall j | 0 <= j < |b| :: b'[j] == b[if j < id || j == |b| - 1 then j else j + 1]
    requires forall j | 0 <= j < |b| :: rems'[j] == rems[if j < id || j == |b| - 1 then j else j + 1]
    ensures Remaining(a, b', rems', i - 1)
  {
    forall k: nat, j: nat | k < |a| && j < i - 1 && !Kept(rems', i - 1, k)
      ensures Loses(a, k, rems'[j])
    {
      var from := if j < id then j else j + 1;
      assert rems'[j] == rems[from];
      if Kept(rems, i, k) {
        if k != rems[id] {
          StillKept(rems, i, id, rems', k);
        } else {
          assert b[id] <= b[from];
          assert from < id ==> b[id] < b[from];
        }
      }
    }
  }

  lemma StillKept(rems: seq<nat>, i: nat, id: nat, rems': seq<nat>, k: nat)
    requires id < i <= |rems| == |rems'| && Kept(rems, i, k) && k != rems[id]
    requires forall j | 0 <= j < |rems| :: rems'[j] == rems[if j < id || j == |rems| - 1 then j else j + 1]
    ensures Kept(rems', i - 1, k)
  {
    var q: nat :| q < i && rems[q] == k;
    var q' := if q < id then q else q - 1;
    assert rems'[q'] == k;
  }

  /** dc_calc_select_material_recursive. */
  method SelectPair(n: nat, a: array<real>) returns (id1: nat, id2: nat)
    requires 2 <= n == a.Length
    modifies a
    ensures id1 < id2 < n
    ensures a[0] == old(a[..])[id1] && a[1] == old(a[..])[id2]
    ensures forall k: nat | k < n && k != id1 && k != id2 ::
              Loses(old(a[..]), k, id1) && Loses(old(a[..]), k, id2)
  {
    hide FirstMinimum, Remaining;
    ghost var was := a[..];
    var rems := new nat[n];
    for i := 0 to n
      invariant a[..] == was && forall j | 0 <= j < i :: rems[j] == j
    {
      rems[i] := i;
    }
    Everything(was, rems[..]);
    for i := n downto 2
      invariant Remaining(was, a[..], rems[..], i)
    {
      RemoveOne(i + 1, a, rems, was);
    }
    id1 := rems[0];
    id2 := rems[1];
    Winners(was, a[..], rems[..]);
  }

  /** The loop that closes the gap at id. */
  method ShiftDown(a: array<real>, rems: array<nat>, id: nat)
    requires id < a.Length == rems.Length
    modifies a, rems
    ensures forall k | 0 <= k < a.Length - 1 :: a[k] == old(a[if k < id then k else k + 1])
    ensures forall k | 0 <= k < a.Length - 1 :: rems[k] == old(rems[if k < id then k else k + 1])
    ensures a[a.Length - 1] == old(a[a.Length - 1]) && rems[a.Length - 1] == old(rems[a.Length - 1])
  {
    for j := id to a.Length - 1
      invariant forall k | 0 <= k < j :: a[k] == old(a[if k < id then k else k + 1])
      invariant forall k | 0 <= k < j :: rems[k] == old(rems[if k < id then k else k + 1])
      invariant forall k | j <= k < a.Length :: a[k] == old(a[k]) && rems[k] == old(rems[k])
    {
      a[j] := a[j + 1];
      rems[j] := rems[j + 1];
    }
  }

  /** One reduction: the first minimum of the first i rates goes, everything behind it moves up. */
  method RemoveOne(i: nat, a: array<real>, rems: array<nat>, ghost was: seq<real>)
    requires 1 <= i <= a.Length == rems.Length && Remaining(was, a[..], rems[..], i)
    modifies a, rems
    ensures Remaining(was, a[..], rems[..], i - 1)
  {
    hide FirstMinimum, Remaining;
    var id := SelectMaterial(i, a);
    ghost var b, r := a[..], rems[..];
    InRange(b, i, id);
    ShiftDown(a, rems, id);
    Dropped(was, b, r, i, id, a[..], rems[..]);
  }

  lemma Everything(a: seq<real>, rems: seq<nat>)
    requires |rems| == |a| && forall j | 0 <= j < |a| :: rems[j] == j
    ensures Remaining(a, a, rems, |a|)
  {
    forall k: nat | k < |a|
      ensures Kept(rems, |a|, k)
    {
      assert rems[k] == k;
    }
  }

  lemma InRange(b: seq<real>, n: nat, id: nat)
    requires FirstMinimum(b, n, id)
    ensures id < n <= |b|
  {
  }

  lemma Winners(a: seq<real>, b: seq<real>, rems: seq<nat>)
    requires Remaining(a, b, rems, 2)
    ensures rems[0] < rems[1] < |a| && b[0] == a[rems[0]] && b[1] == a[rems[1]]
    ensures forall k: nat | k < |a| && k != rems[0] && k != rems[1] :: Loses(a, k, rems[0]) && Loses(a, k, rems[1])
  {
    forall k: nat | k < |a| && k != rems[0] && k != rems[1]
      ensures Loses(a, k, rems[0]) && Loses(a, k, rems[1])
    {
      assert !Kept(rems, 2, k);
    }
  }
}
