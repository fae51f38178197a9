/**
 Addresses of pairs of materials (jupiter/dccalc.h, 247-517): the table of ordered pairs, the
 triangular table of unordered pairs, and the inverse that takes an integer square root.
 */
module PairIndex {
  import opened Layout

  /** dc_calc_binary_size. */
  function Size(n: int): (r: int)
    ensures r >= 0
  {
    if n <= 1 then 0
    else
      InTable(0, n - 1);
      (n - 1) * n
  }

  /** dc_calc_binary_size_commutative. */
  function CommutativeSize(n: int): (r: int)
    ensures n >= 1 ==> r == RowStart(n - 1, n - 1)
  {
    if n <= 1 then 0
    else
      RowStartFormula(n - 1, n - 1);
      (n - 1) * n / 2
  }

  predicate IsPair(diff: int, base: int, n: int) {
    0 <= diff < n && 0 <= base < n && diff != base
  }

  /** dc_calc_binary_address; -1 for anything but a pair. */
  function Address(diff: int, base: int, n: int): (r: int)
    ensures r == -1 <==> !IsPair(diff, base, n)
    ensures r != -1 ==> 0 <= r < Size(n)
  {
    if n <= 1 then -1
    else if diff < 0 || diff >= n then -1
    else if base < 0 || base >= n then -1
    else if diff == base then -1
    else
      InTable(diff, n - 1);
      diff * (n - 1) + base - (if base > diff then 1 else 0)
  }

  lemma InTable(row: int, m: int)
    requires 0 <= row <= m
    ensures 0 <= row * m && row * m + m <= m * (m + 1)
  {
    MulStep(row, m + 1, m);
  }

  /** dc_calc_binary_ids; None stands for the error return. */
  function Ids(addr: int, n: int): (r: Option<(int, int)>)
  {
    if n <= 1 then None
    else if addr < 0 then None
    else
      var m := n - 1;
      var t := addr / m;
      if t > m then None
      else
        var u := addr % m;
        Some((t, if u >= t then u + 1 else u))
  }

  /** The two are inverse to each other: Ids accepts exactly the addresses of the table ... */
  lemma IdsThenAddress(addr: int, n: int)
    ensures Ids(addr, n).Some? <==> 0 <= addr < Size(n)
    ensures Ids(addr, n).Some? ==>
              IsPair(Ids(addr, n).value.0, Ids(addr, n).value.1, n) &&
              Address(Ids(addr, n).value.0, Ids(addr, n).value.1, n) == addr
  {
    if n > 1 && addr >= 0 {
      var m := n - 1;
      var t, u := addr / m, addr % m;
      assert addr == t * m + u;
      MulStep(t, n, m);
      MulStep(m, t, m);
    }
  }

  /** ... and gives back every pair. */
  lemma AddressThenIds(diff: int, base: int, n: int)
    requires IsPair(diff, base, n)
    ensures Ids(Address(diff, base, n), n) == Some((diff, base))
  {
    var u := if base > diff then base - 1 else base;
    DivModUnique(Address(diff, base, n), n - 1, diff, u);
  }

  /** The table runs through the pairs in lexicographic order. */
  lemma AddressOrder(diff: int, base: int, diff': int, base': int, n: int)
    requires IsPair(diff, base, n) && IsPair(diff', base', n)
    ensures Address(diff, base, n) < Address(diff', base', n) <==> diff < diff' || (diff == diff' && base < base')
  {
    MulStep(diff, diff', n - 1);
    MulStep(diff', diff, n - 1);
  }

  /** How many pairs the rows before row j of the triangle hold, when the longest row holds m. */
  function RowStart(m: int, j: nat): int {
    if j == 0 then 0 else RowStart(m, j - 1) + m - (j - 1)
  }

  lemma {:induction false} RowStartFormula(m: int, j: nat)
    ensures 2 * RowStart(m, j) == j * (2 * m + 1 - j)
    ensures RowStart(m, j) == j * (2 * m + 1 - j) / 2
  {
    if j > 0 {
      RowStartFormula(m, j - 1);
      assert (j - 1) * (2 * m + 1 - (j - 1)) == j * (2 * m + 1 - j) - 2 * (m - (j - 1));
    }
  }

  lemma {:induction false} RowStartGrows(m: int, j: nat, k: nat)
    requires j <= k <= m
    ensures RowStart(m, j) <= RowStart(m, k)
  {
    if j < k {
      RowStartGrows(m, j, k - 1);
    }
  }

  /** dc_calc_binary_address_commutative. */
  function CommutativeAddress(diff: int, base: int, n: int): (r: int)
    ensures r == -1 <==> !IsPair(diff, base, n)
    ensures IsPair(diff, base, n) && diff < base ==> r == RowStart(n - 1, diff) + base - diff - 1
    ensures IsPair(diff, base, n) && base < diff ==> r == RowStart(n - 1, base) + diff - base - 1
    ensures IsPair(diff, base, n) ==> 0 <= r < CommutativeSize(n)
  {
    if diff < 0 then -1
    else if base < 0 then -1
    else if n <= 1 then -1
    else if diff == base then -1
    else
      var tsz := n - 1;
      if base > diff then
        if base >= n then -1
        else
          RowOfPair(diff, base, n);
          (tsz - diff + 1 + tsz) * diff / 2 + (base - diff - 1)
      else
        if diff >= n then -1
        else
          RowOfPair(base, diff, n);
          (tsz - base + 1 + tsz) * base / 2 + (diff - base - 1)
  }

  lemma RowOfPair(lo: int, hi: int, n: int)
    requires 0 <= lo < hi < n
    ensures (n - 1 - lo + 1 + (n - 1)) * lo / 2 == RowStart(n - 1, lo) >= 0
    ensures RowStart(n - 1, lo) + hi - lo - 1 < RowStart(n - 1, lo + 1) <= RowStart(n - 1, n - 1)
  {
    RowStartFormula(n - 1, lo);
    RowStartGrows(n - 1, 0, lo);
    RowStartGrows(n - 1, lo + 1, n - 1);
    assert (n - 1 - lo + 1 + (n - 1)) * lo == lo * (2 * (n - 1) + 1 - lo);
  }

  /** So does the triangular table, the smaller index of a pair first. */
  lemma CommutativeOrder(lo: int, hi: int, lo': int, hi': int, n: int)
    requires 0 <= lo < hi < n && 0 <= lo' < hi' < n
    ensures CommutativeAddress(lo, hi, n) < CommutativeAddress(lo', hi', n) <==> lo < lo' || (lo == lo' && hi < hi')
  {
    hide CommutativeAddress;
    RowOfPair(lo, hi, n);
    RowOfPair(lo', hi', n);
    if lo < lo' {
      RowStartGrows(n - 1, lo + 1, lo');
    } else if lo' < lo {
      RowStartGrows(n - 1, lo' + 1, lo);
    }
  }

  function Pow2(k: nat): (r: nat)
    ensures r >= 1
  {
    if k == 0 then 1 else 2 * Pow2(k - 1)
  }

  lemma {:induction false} Pow2Square(k: nat)
    ensures Pow2(2 * k) == Pow2(k) * Pow2(k)
  {
    if k > 0 {
      Pow2Square(k - 1);
    }
  }

  /** b = 2^k, the root R found so far is a multiple of 2 b, and res carries 2 b R. */
  ghost predicate RootSoFar(n: nat, h: nat, op: nat, res: nat, one: nat, b: nat, R: nat, k: nat) {
    && k < h && b == Pow2(k) && one == b * b && res == 2 * b * R && op + R * R == n
    && n < (R + 2 * b) * (R + 2 * b) && R + 2 * b <= Pow2(h)
  }

  /** No sum formed in a step leaves a word of 2 h bits. */
  lemma StepFits(n: nat, h: nat, op: nat, res: nat, one: nat, b: nat, R: nat, k: nat)
    requires RootSoFar(n, h, op, res, one, b, R, k)
    ensures res + 2 * one < Pow2(2 * h)
  {
    var p := Pow2(h);
    Pow2Square(h);
    Pow2Grows(k, h - 1);
    FitsRing(b, R, p);
  }

  lemma FitsRing(b: nat, R: nat, p: nat)
    requires b >= 1 && R + 2 * b <= p && 2 * b <= p
    ensures 2 * b * R + 2 * (b * b) < p * p
  {
    assert 2 * b * R <= 2 * b * (p - 2 * b) by {
      MulLe(R, p - 2 * b, 2 * b);
    }
    assert 2 * b * (p - 2 * b) == 2 * b * p - 4 * (b * b);
    assert 2 * b * p <= p * p by {
      MulLe(2 * b, p, p);
    }
  }

  lemma {:induction false} Pow2Grows(j: nat, k: nat)
    requires j <= k
    ensures 2 * Pow2(j) <= 2 * Pow2(k) == Pow2(k + 1)
  {
    if j < k {
      Pow2Grows(j, k - 1);
    }
  }

  /** One digit of the root. */
  lemma Digit(n: nat, h: nat, op: nat, res: nat, one: nat, b: nat, R: nat, k: nat)
    requires RootSoFar(n, h, op, res, one, b, R, k)
    ensures op >= res + one ==> op - (res + one) + (R + b) * (R + b) == n
    ensures op < res + one ==> n < (R + b) * (R + b)
    ensures (res + 2 * one) / 2 == b * (R + b) && res / 2 == b * R
  {
    SquareOfSum(R, b);
    HalfOfDouble(b * R);
    HalfOfDouble(b * (R + b));
    DoubleRing(R, b);
  }

  lemma SquareOfSum(r: int, b: int)
    ensures (r + b) * (r + b) == r * r + 2 * b * r + b * b
  {
  }

  lemma DoubleRing(r: int, b: int)
    ensures 2 * b * r == 2 * (b * r) && 2 * b * r + 2 * (b * b) == 2 * (b * (r + b))
  {
  }

  lemma HalfOfDouble(x: int)
    ensures 2 * x / 2 == x
  {
  }

  /** The next digit is half as heavy. */
  lemma Halve(b: nat, k: nat, R: nat)
    requires b == Pow2(k)
    ensures k > 0 ==> b == 2 * Pow2(k - 1) && b * b / 4 == Pow2(k - 1) * Pow2(k - 1) && b * R == 2 * Pow2(k - 1) * R
    ensures k == 0 ==> b * b / 4 == 0 && b * R == R
  {
    if k > 0 {
      var c := Pow2(k - 1);
      assert b * b == 4 * (c * c);
    }
  }

  /** The state of the digit loop: k is the position of the next digit, -1 when there is none left. */
  ghost predicate DigitsLeft(n: nat, h: nat, op: nat, res: nat, one: nat, R: nat, k: int) {
    && -1 <= k < h
    && (k >= 0 ==> RootSoFar(n, h, op, res, one, Pow2(k), R, k))
    && (k < 0 ==> one == 0 && res * res + op == n && n < (res + 1) * (res + 1) && res < Pow2(h))
  }

  /** With root R and next digit weight b, what is left after the shifts. */
  lemma Shifted(n: nat, h: nat, op: nat, res: nat, one: nat, b: nat, R: nat, k: nat)
    requires k < h && b == Pow2(k) && one == b * b && res == b * R && op + R * R == n
    requires n < (R + b) * (R + b) && R + b <= Pow2(h)
    ensures DigitsLeft(n, h, op, res, one / 4, R, k - 1)
  {
    Halve(b, k, R);
    if k > 0 {
      hide Pow2;
      var c := Pow2(k - 1);
      assert R + b == R + 2 * c;
      assert RootSoFar(n, h, op, res, one / 4, c, R, k - 1);
    } else {
      assert res * res == R * R && res + 1 == R + b;
    }
  }

  lemma NextDigit(n: nat, h: nat, op: nat, res: nat, one: nat, R: nat, k: nat)
    requires RootSoFar(n, h, op, res, one, Pow2(k), R, k)
    ensures op >= res + one ==> DigitsLeft(n, h, op - (res + one), (res + 2 * one) / 2, one / 4, R + Pow2(k), k - 1)
    ensures op < res + one ==> DigitsLeft(n, h, op, res / 2, one / 4, R, k - 1)
  {
    hide DigitsLeft, Pow2;
    var b := Pow2(k);
    Digit(n, h, op, res, one, b, R, k);
    if op >= res + one {
      assert R + b + b == R + 2 * b;
      Shifted(n, h, op - (res + one), (res + 2 * one) / 2, one, b, R + b, k);
    } else {
      Shifted(n, h, op, res / 2, one, b, R, k);
    }
  }

  /** The largest power of four that is at most n, as the first loop finds it; 0 for n = 0. */
  method FirstDigit(n: nat, h: nat) returns (one: nat, ghost k: int)
    requires h >= 1 && n < Pow2(2 * h)
    ensures DigitsLeft(n, h, n, 0, one, 0, k)
  {
    one := Pow2(2 * h - 2);
    k := h - 1;
    Quarter(h);
    while one > n
      invariant -1 <= k < h
      invariant k >= 0 ==> one == Pow2(2 * k) && n < 4 * one
      invariant k < 0 ==> one == 0 && n == 0
      decreases one
    {
      Quarter(k);
      one := one / 4;
      k := k - 1;
    }
    if k >= 0 {
      StartDigits(n, h, one, k);
    }
  }

  lemma Quarter(k: nat)
    ensures k > 0 ==> Pow2(2 * k) == 4 * Pow2(2 * k - 2)
    ensures k == 0 ==> Pow2(2 * k) == 1
  {
    if k > 0 {
      assert Pow2(2 * k) == 2 * Pow2(2 * k - 1);
    }
  }

  lemma StartDigits(n: nat, h: nat, one: nat, k: nat)
    requires k < h && one == Pow2(2 * k) && n < 4 * one
    ensures DigitsLeft(n, h, n, 0, one, 0, k)
  {
    Pow2Square(k);
    Pow2Grows(k, h - 1);
    var b := Pow2(k);
    assert (0 + 2 * b) * (0 + 2 * b) == 4 * (b * b);
  }

  /** x as a word of 2 h bits. */
  function Word(x: int, h: nat): (w: nat)
    ensures w < Pow2(2 * h)
  {
    x % Pow2(2 * h)
  }

  lemma WordOf(x: int, h: nat)
    requires 0 <= x < Pow2(2 * h)
    ensures Word(x, h) == x
  {
    hide Pow2;
    SmallRemainder(x, Pow2(2 * h));
  }

  lemma SmallRemainder(x: int, m: int)
    requires 0 <= x < m
    ensures x % m == x
  {
  }

  /** The shift-and-subtract root of a word of 2 h bits; op is what is left over.  No sum wraps around. */
  method Root(n: nat, h: nat) returns (res: nat, op: nat)
    requires h >= 1 && n < Pow2(2 * h)
    ensures res * res + op == n && n < (res + 1) * (res + 1)
    ensures res < Pow2(h)
  {
    hide RootSoFar, Pow2, Word;
    op, res := n, 0;
    ghost var k, R: nat := -1, 0;
    var one;
    one, k := FirstDigit(n, h);
    while one != 0
      invariant DigitsLeft(n, h, op, res, one, R, k)
      decreases k
    {
      StepFits(n, h, op, res, one, Pow2(k), R, k);
      WordOf(res + one, h);
      WordOf(2 * one, h);
      WordOf(res + 2 * one, h);
      NextDigit(n, h, op, res, one, R, k);
      if op >= Word(res + one, h) {
        op := op - Word(res + one, h);
        res := Word(res + Word(2 * one, h), h);
        R := R + Pow2(k);
      }
      res := res / 2;
      one := one / 4;
      k := k - 1;
    }
    NoneLeft(n, h, op, res, one, R, k);
  }

  lemma NoneLeft(n: nat, h: nat, op: nat, res: nat, one: nat, R: nat, k: int)
    requires DigitsLeft(n, h, op, res, one, R, k) && one == 0
    ensures k < 0
  {
  }

  /** Division by two as C does it, towards zero. */
  function Half(x: int): int {
    if x >= 0 then x / 2 else -((-x) / 2)
  }

  /** The row of an address is where the rounded-up root of the discriminant says. */
  lemma RowOfRoot(m: int, addr: int, c: int, j: int)
    requires 1 <= m && 0 <= addr < RowStart(m, m)
    requires var t := (2 * m + 1) * (2 * m + 1) - 8 * addr; c >= 1 && (c - 1) * (c - 1) < t <= c * c
    requires j == Half(2 * m + 1 - c)
    ensures 0 <= j < m && RowStart(m, j) <= addr < RowStart(m, j + 1)
  {
    var t := (2 * m + 1) * (2 * m + 1) - 8 * addr;
    RowStartFormula(m, m);
    LastRow(m, addr, t);
    if c <= 2 {
      SquareLe(c, 2);
      assert false;
    }
    if c > 2 * m + 1 {
      SquareLe(2 * m + 1, c - 1);
      assert false;
    }
    Discriminant(m, j);
    Discriminant(m, j + 1);
    SquareLe(c, 2 * m + 1 - 2 * j);
    SquareLe(2 * m + 1 - 2 * (j + 1), c - 1);
  }

  lemma LastRow(m: int, addr: int, t: int)
    requires 1 <= m && 2 * RowStart(m, m) == m * (2 * m + 1 - m) && addr < RowStart(m, m)
    requires t == (2 * m + 1) * (2 * m + 1) - 8 * addr
    ensures t >= 9
  {
    assert m * (2 * m + 1 - m) == m * m + m;
    assert (2 * m + 1) * (2 * m + 1) == 4 * (m * m) + 4 * m + 1;
  }

  lemma SquareLe(x: int, y: int)
    requires 0 <= x <= y
    ensures x * x <= y * y
  {
    MulLe(x, y, x);
    MulLe(x, y, y);
  }

  lemma Discriminant(m: int, j: nat)
    ensures (2 * m + 1 - 2 * j) * (2 * m + 1 - 2 * j) == (2 * m + 1) * (2 * m + 1) - 8 * RowStart(m, j)
  {
    RowStartFormula(m, j);
    var w := 2 * m + 1;
    assert (w - 2 * j) * (w - 2 * j) == w * w - 4 * (j * (w - j));
  }

  /** An address behind the table ends up behind its row, whatever row the root names. */
  lemma BehindTable(m: int, addr: int, j: int)
    requires 1 <= m && addr >= RowStart(m, m) && j <= m
    ensures addr - Half(j * (2 * (m - j) + 1 + j)) + j + 1 > m
  {
    RowStartFormula(m, m);
    EvenProduct(m, j);
    BehindRing(m, j, m - j);
    BeyondLine(m - j);
  }

  lemma BehindRing(m: int, j: int, k: int)
    requires k == m - j
    ensures j * (2 * (m - j) + 1 + j) == j * (2 * m + 1 - j)
    ensures m * (2 * m + 1 - m) - j * (2 * m + 1 - j) == k * (k + 1)
  {
    assert 2 * (m - j) + 1 + j == 2 * m + 1 - j;
    assert (m - k) * (m + 1 + k) == m * m + m - k * (k + 1);
  }

  lemma BeyondLine(k: nat)
    ensures k * (k + 1) >= 2 * k
  {
    if k >= 1 {
      MulLe(2, k + 1, k);
    }
  }

  /** The product the code halves is even, so its division is exact. */
  lemma EvenProduct(m: int, j: int)
    ensures 2 * Half(j * (2 * m + 1 - j)) == j * (2 * m + 1 - j)
  {
    var q := j / 2;
    if j % 2 == 0 {
      assert j == 2 * q;
      assert j * (2 * m + 1 - j) == 2 * (q * (2 * m + 1 - j));
    } else {
      assert j == 2 * q + 1;
      assert 2 * m + 1 - j == 2 * (m - q);
      assert j * (2 * m + 1 - j) == 2 * (j * (m - q));
    }
  }

  /** Rows do not overlap. */
  lemma RowUnique(m: int, addr: int, j: nat, i: nat)
    requires j < m && i < m && RowStart(m, j) <= addr < RowStart(m, j + 1)
    requires RowStart(m, i) <= addr < RowStart(m, i + 1)
    ensures i == j
  {
    if i < j {
      RowStartGrows(m, i + 1, j);
    } else if j < i {
      RowStartGrows(m, j + 1, i);
    }
  }

  /** The pair at an address of the triangular table, smaller index first. */
  ghost predicate Locates(addr: int, n: int, diff: int, base: int) {
    0 <= diff < base < n && CommutativeAddress(diff, base, n) == addr
  }

  lemma RowLocates(m: int, addr: int, j: nat)
    requires j < m && RowStart(m, j) <= addr < RowStart(m, j + 1)
    ensures Locates(addr, m + 1, j, addr - RowStart(m, j) + j + 1)
  {
  }

  /** A pair of any order with this address is that pair. */
  lemma LocatesUnique(addr: int, n: int, diff: int, base: int, i: int, k: int)
    requires Locates(addr, n, diff, base) && IsPair(i, k, n) && CommutativeAddress(i, k, n) == addr
    ensures (i == diff && k == base) || (i == base && k == diff)
  {
    RowOfPair(diff, base, n);
    var lo, hi := if i < k then i else k, if i < k then k else i;
    RowOfPair(lo, hi, n);
    RowUnique(n - 1, addr, diff, lo);
  }

  /**
   dc_calc_binary_ids_commutative, with words of 2 h bits and ints up to intMax, as long as no
   signed product overflows.
   */
  method CommutativeIds(addr: int, n: int, h: nat, intMax: int) returns (r: Option<(int, int)>)
    requires n <= intMax && h >= 1
    requires n > 1 ==> (2 * n - 1) * (2 * n - 1) < Pow2(2 * h - 1) && 8 * addr <= Pow2(2 * h - 1)
    ensures r.Some? <==> n > 1 && 0 <= addr < CommutativeSize(n)
    ensures r.Some? ==> Locates(addr, n, r.value.0, r.value.1)
    ensures forall i, k | IsPair(i, k, n) && CommutativeAddress(i, k, n) == addr ::
              r == Some(if i < k then (i, k) else (k, i))
  {
    r := FindPair(addr, n, h, intMax);
    forall i, k | IsPair(i, k, n) && CommutativeAddress(i, k, n) == addr
      ensures r == Some(if i < k then (i, k) else (k, i))
    {
      LocatesUnique(addr, n, r.value.0, r.value.1, i, k);
    }
  }

  method FindPair(addr: int, n: int, h: nat, intMax: int) returns (r: Option<(int, int)>)
    requires n <= intMax && h >= 1
    requires n > 1 ==> (2 * n - 1) * (2 * n - 1) < Pow2(2 * h - 1) && 8 * addr <= Pow2(2 * h - 1)
    ensures r.Some? <==> n > 1 && 0 <= addr < CommutativeSize(n)
    ensures r.Some? ==> Locates(addr, n, r.value.0, r.value.1)
  {
    hide Pow2, Locates, RowStart;
    if n <= 1 {
      return None;
    }
    if addr < 0 {
      return None;
    }
    var m := n - 1;
    if addr < m {
      FirstRow(m, addr);
      return Some((0, addr + 1));
    }
    WordRange(h, n);
    var c := RootOf(addr, m, h);
    if c < 0 {
      return None;
    }
    r := PairOfRoot(addr, m, c, intMax);
  }

  lemma FirstRow(m: int, addr: int)
    requires 0 <= addr < m
    ensures addr < RowStart(m, m) && Locates(addr, m + 1, 0, addr + 1)
  {
    RowStartGrows(m, 1, m);
    RowLocates(m, addr, 0);
  }

  /** A word of 2 h bits read as a signed number. */
  function Signed(w: int, h: nat): int
    requires h >= 1
  {
    if w < Pow2(2 * h - 1) then w else w - Pow2(2 * h)
  }

  /** The root of the discriminant, rounded up, as a signed word. */
  method RootOf(addr: int, m: int, h: nat) returns (c: int)
    requires h >= 2 && 1 <= m && addr >= 0 && (2 * m + 1) * (2 * m + 1) < Pow2(2 * h - 1) && 8 * addr <= Pow2(2 * h - 1)
    requires Pow2(2 * h) == 2 * Pow2(2 * h - 1) && Pow2(h) < Pow2(2 * h - 1)
    ensures c >= 1
    ensures addr < RowStart(m, m) ==>
              var t := (2 * m + 1) * (2 * m + 1) - 8 * addr; (c - 1) * (c - 1) < t <= c * c
  {
    hide Pow2, RowStart;
    var t := m;
    t := t * 2;
    t := t + 1;
    t := t * t;
    t := t - addr * 8;
    if addr < RowStart(m, m) {
      RowStartFormula(m, m);
      LastRow(m, addr, t);
    }
    var res, op := Root(if t >= 0 then t else t + Pow2(2 * h), h);
    OddSquare(m);
    ghost var left := op;
    if op > 0 {
      res := res + 1;
    }
    c := Signed(res, h);
    if addr < RowStart(m, m) {
      CeilingRoot(t, m, addr, res, left);
    }
  }

  lemma OddSquare(m: int)
    ensures (2 * m + 1) * (2 * m + 1) % 2 == 1
  {
    assert (2 * m + 1) * (2 * m + 1) == 2 * (2 * (m * m) + 2 * m) + 1;
  }

  /** What follows the root: the row, and the place in it. */
  method PairOfRoot(addr: int, m: int, c: int, intMax: int) returns (r: Option<(int, int)>)
    requires 1 <= m < intMax && c >= 1 && addr >= 0
    requires addr < RowStart(m, m) ==>
               var t := (2 * m + 1) * (2 * m + 1) - 8 * addr; (c - 1) * (c - 1) < t <= c * c
    ensures r.Some? <==> addr < RowStart(m, m)
    ensures r.Some? ==> Locates(addr, m + 1, r.value.0, r.value.1)
  {
    hide Locates;
    var u := m;
    u := u * 2;
    u := u + 1;
    var t := u - c;
    t := Half(t);
    var diff := t;
    if addr >= RowStart(m, m) {
      BehindTable(m, addr, diff);
    } else {
      RowOfRoot(m, addr, c, diff);
      RowHalf(m, diff);
      RowLocates(m, addr, diff);
    }
    if !(-intMax - 1 <= diff <= intMax) {
      return None;
    }
    u := m - t;
    u := u * 2;
    u := u + 1 + t;
    t := t * u;
    t := Half(t);
    t := addr - t + diff + 1;
    if t > m {
      return None;
    }
    if !(-intMax - 1 <= t <= intMax) {
      return None;
    }
    return Some((diff, t));
  }

  lemma RowHalf(m: int, j: nat)
    requires j <= m
    ensures Half(j * ((m - j) * 2 + 1 + j)) == RowStart(m, j)
  {
    RowStartFormula(m, j);
    EvenProduct(m, j);
    assert (m - j) * 2 + 1 + j == 2 * m + 1 - j;
  }

  lemma WordRange(h: nat, n: int)
    requires h >= 1 && n > 1 && (2 * n - 1) * (2 * n - 1) < Pow2(2 * h - 1)
    ensures h >= 2 && Pow2(2 * h) == 2 * Pow2(2 * h - 1) && Pow2(h) < Pow2(2 * h - 1)
  {
    SquareLe(3, 2 * n - 1);
    assert Pow2(1) == 2;
    if h >= 2 {
      Pow2Grows(h, 2 * h - 2);
    }
  }

  /** Rounding the root up when something is left over. */
  lemma CeilingRoot(t: int, m: int, addr: int, c: int, left: nat)
    requires t == (2 * m + 1) * (2 * m + 1) - 8 * addr && 1 <= m && addr < RowStart(m, m)
    requires if left > 0 then (c - 1) * (c - 1) + left == t && t < c * c else c * c == t
    requires c >= 0
    ensures t >= 9 && c >= 1 && (c - 1) * (c - 1) < t <= c * c
  {
    RowStartFormula(m, m);
    LastRow(m, addr, t);
    if c >= 1 {
      assert (c - 1) * (c - 1) == c * c - 2 * c + 1;
    }
  }
}
