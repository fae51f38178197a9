/**
 The matcher that should undo the formatter (jupiter/csvtmpl_format.c, 933-1301).  Formats are lists
 of directives as in Format.
 */
module FormatMatch {
  import opened Layout
  import opened Format

  const INT_MAX: int := 0x7fff_ffff

  /** The value a 32-bit int keeps of x. */
  function ToInt(x: int): (w: int)
    ensures 0 <= x <= INT_MAX ==> w == x
  {
    (x + 0x8000_0000) % 0x1_0000_0000 - 0x8000_0000
  }

  predicate IsDigit(ch: char) { '0' <= ch <= '9' }

  predicate IsLetter(ch: char) { 'A' <= ch <= 'Z' || 'a' <= ch <= 'z' }

  predicate IsWordChar(ch: char) { IsDigit(ch) || IsLetter(ch) }

  /** format_integers_match_data, as far as it is an output. */
  datatype Record = Record(matched: bool, value: int, err: bool, text: string)

  /** Blanks and at most one sign before the first digit; None if something else comes first. */
  function SkipSign(s: string, signed: bool): (r: Option<string>)
    ensures r.Some? ==> |r.value| > 0 && IsDigit(r.value[0]) && |r.value| <= |s|
  {
    if s == [] then None
    else if s[0] == ' ' then SkipSign(s[1..], signed)
    else if s[0] == '+' || s[0] == '-' then (if signed then None else SkipSign(s[1..], true))
    else if IsDigit(s[0]) then Some(s)
    else None
  }

  function SkipDigits(s: string): (r: string)
    ensures |r| <= |s|
  {
    if s != [] && IsDigit(s[0]) then SkipDigits(s[1..]) else s
  }

  function DigitValue(ch: char): int
    requires IsDigit(ch)
  {
    ch as int - '0' as int
  }

  /** A number with v already read: its value, whether it overflowed, and what follows. */
  function Accumulate(v: int, s: string): (int, bool, string)
    decreases s
  {
    if s == [] || !IsDigit(s[0]) then (v, false, s)
    else
      var w := ToInt(v * 10 + DigitValue(s[0]));
      if w < 0 then (INT_MAX, true, SkipDigits(s[1..])) else Accumulate(w, s[1..])
  }

  function ScanInt(s: string): Option<(int, bool, string)> {
    var d := SkipSign(s, false);
    if d.None? then None else Some(Accumulate(DigitValue(d.value[0]), d.value[1..]))
  }

  function SkipBlanks(s: string): (r: string)
    ensures |r| <= |s|
  {
    if s != [] && s[0] == ' ' then SkipBlanks(s[1..]) else s
  }

  function WordLength(s: string): (n: nat)
    ensures n <= |s|
  {
    if s != [] && IsWordChar(s[0]) then 1 + WordLength(s[1..]) else 0
  }

  function ScanText(s: string): Option<(string, string)> {
    var t := SkipBlanks(s);
    if t == [] || !IsLetter(t[0]) then None
    else Some((t[..WordLength(t)], t[WordLength(t)..]))
  }

  /** The record of a key; the matcher has one for every key of the format. */
  function RecordOf(recs: map<char, Record>, key: char): Record {
    if key in recs then recs[key] else Record(false, 0, false, "")
  }

  /** A number has been matched under key; an overflow stays on record. */
  function PutValue(recs: map<char, Record>, key: char, v: int, err: bool): map<char, Record> {
    var r := RecordOf(recs, key);
    recs[key := r.(matched := true, value := v, err := r.err || err)]
  }

  function PutText(recs: map<char, Record>, key: char, t: string): map<char, Record> {
    recs[key := RecordOf(recs, key).(matched := true, text := t)]
  }

  /** The matcher: whether all of s matches, and the records it has filled in. */
  function Matched(items: seq<Item>, s: string, recs: map<char, Record>): (bool, map<char, Record>)
    decreases |items|
  {
    if items == [] then (s == [], recs)
    else
      match items[0]
      case Plain(ch) => if s == [] || s[0] != ch then (false, recs) else Matched(items[1..], s[1..], recs)
      case Percent => if s == [] || s[0] != '%' then (false, recs) else Matched(items[1..], s[1..], recs)
      case Number(key, _) =>
        var r := ScanInt(s);
        if r.None? then (false, recs)
        else Matched(items[1..], r.value.2, PutValue(recs, key, r.value.0, r.value.1))
      case Text(key) =>
        var r := ScanText(s);
        if r.None? then (false, recs)
        else Matched(items[1..], r.value.1, PutText(recs, key, r.value.0))
  }

  /** Up to the first digit. */
  method FindDigit(scan: string, start: nat) returns (ok: bool, next: nat)
    requires start <= |scan|
    ensures next <= |scan|
    ensures SkipSign(scan[start..], false) == if ok then Some(scan[next..]) else None
    ensures ok ==> next < |scan| && IsDigit(scan[next])
  {
    var n, f := false, false;
    ok, next := true, start;
    while true
      invariant next <= |scan| && SkipSign(scan[start..], false) == SkipSign(scan[next..], n || f)
      decreases |scan| - next
    {
      if next == |scan| {
        ok := false;
        return;
      }
      var ch := scan[next];
      if ch == ' ' {
      } else if ch == '+' {
        if n || f {
          ok := false;
          return;
        }
        f := true;
      } else if ch == '-' {
        if n || f {
          ok := false;
          return;
        }
        n := true;
      } else if IsDigit(ch) {
        return;
      } else {
        ok := false;
        return;
      }
      next := next + 1;
    }
  }

  /** The digits behind an overflow. */
  method PassDigits(scan: string, start: nat) returns (next: nat)
    requires start <= |scan|
    ensures start <= next <= |scan| && scan[next..] == SkipDigits(scan[start..])
  {
    next := start;
    while next < |scan| && IsDigit(scan[next])
      invariant start <= next <= |scan| && SkipDigits(scan[start..]) == SkipDigits(scan[next..])
    {
      next := next + 1;
    }
  }

  /** The digits after the first one. */
  method ReadDigits(scan: string, start: nat, first: int) returns (v: int, err: bool, next: nat)
    requires start <= |scan|
    ensures next <= |scan| && (v, err, scan[next..]) == Accumulate(first, scan[start..])
  {
    hide ToInt;
    v, err, next := first, false, start;
    while next < |scan| && IsDigit(scan[next])
      invariant next <= |scan| && Accumulate(first, scan[start..]) == Accumulate(v, scan[next..])
    {
      v := ToInt(v * 10 + DigitValue(scan[next]));
      next := next + 1;
      if v < 0 {
        v := INT_MAX;
        err := true;
        next := PassDigits(scan, next);
        return;
      }
    }
  }

  /** The scanning loops for a number. */
  method MatchInt(scan: string, start: nat) returns (ok: bool, v: int, err: bool, next: nat)
    requires start <= |scan|
    ensures next <= |scan|
    ensures ScanInt(scan[start..]) == if ok then Some((v, err, scan[next..])) else None
  {
    hide Accumulate, SkipSign;
    v, err := 0, false;
    ok, next := FindDigit(scan, start);
    if ok {
      assert scan[next..][0] == scan[next] && scan[next..][1..] == scan[next + 1..];
      v, err, next := ReadDigits(scan, next + 1, DigitValue(scan[next]));
    }
  }

  method PassBlanks(scan: string, start: nat) returns (next: nat)
    requires start <= |scan|
    ensures start <= next <= |scan| && SkipBlanks(scan[start..]) == scan[next..]
  {
    next := start;
    while next < |scan| && scan[next] == ' '
      invariant start <= next <= |scan| && SkipBlanks(scan[start..]) == SkipBlanks(scan[next..])
    {
      next := next + 1;
    }
  }

  method PassWord(scan: string, start: nat) returns (next: nat)
    requires start <= |scan|
    ensures start <= next <= |scan| && WordLength(scan[start..]) == next - start
  {
    next := start;
    while next < |scan| && IsWordChar(scan[next])
      invariant start <= next <= |scan| && WordLength(scan[start..]) == next - start + WordLength(scan[next..])
    {
      next := next + 1;
    }
  }

  /** The scanning loops for a text. */
  method MatchText(scan: string, start: nat) returns (ok: bool, t: string, next: nat)
    requires start <= |scan|
    ensures next <= |scan|
    ensures ScanText(scan[start..]) == if ok then Some((t, scan[next..])) else None
  {
    hide SkipBlanks, WordLength;
    ok, t := true, "";
    next := PassBlanks(scan, start);
    if next == |scan| || !IsLetter(scan[next]) {
      ok := false;
      return;
    }
    var from := next;
    next := PassWord(scan, from);
    t := scan[from..next];
    assert scan[from..][..next - from] == t && scan[from..][next - from..] == scan[next..];
  }

  /** format_integers_match; recs holds a record for every key. */
  method Match(scan: string, items: seq<Item>, keys: map<char, Record>) returns (r: bool, recs: map<char, Record>)
    ensures (r, recs) == Matched(items, scan, map k | k in keys :: Record(false, keys[k].value, false, ""))
  {
    hide ScanInt, ScanText;
    recs := map k | k in keys :: Record(false, keys[k].value, false, "");
    ghost var blank := recs;
    var at: nat := 0;
    for i := 0 to |items|
      invariant at <= |scan| && Matched(items, scan, blank) == Matched(items[i..], scan[at..], recs)
    {
      assert items[i..][1..] == items[i + 1..];
      match items[i] {
        case Plain(ch) =>
          if at == |scan| || scan[at] != ch {
            r := false;
            return;
          }
          at := at + 1;
        case Percent =>
          if at == |scan| || scan[at] != '%' {
            r := false;
            return;
          }
          at := at + 1;
        case Number(key, _) =>
          var ok, v, err, next := MatchInt(scan, at);
          if !ok {
            r := false;
            return;
          }
          recs := PutValue(recs, key, v, err);
          at := next;
        case Text(key) =>
          var ok, t, next := MatchText(scan, at);
          if !ok {
            r := false;
            return;
          }
          recs := PutText(recs, key, t);
          at := next;
      }
    }
    r := at == |scan|;
  }

  /** The number a string of digits stands for, with v read before it. */
  function ValueOf(v: int, s: string): int
    requires forall i | 0 <= i < |s| :: IsDigit(s[i])
    decreases s
  {
    if s == [] then v else ValueOf(v * 10 + DigitValue(s[0]), s[1..])
  }

  lemma {:induction false} ValueGrows(v: int, s: string)
    requires v >= 0 && forall i | 0 <= i < |s| :: IsDigit(s[i])
    ensures ValueOf(v, s) >= v
    decreases s
  {
    if s != [] {
      ValueGrows(v * 10 + DigitValue(s[0]), s[1..]);
    }
  }

  lemma {:induction false} ValueSplits(v: int, s: string, t: string)
    requires forall i | 0 <= i < |s| :: IsDigit(s[i])
    requires forall i | 0 <= i < |t| :: IsDigit(t[i])
    ensures forall i | 0 <= i < |s + t| :: IsDigit((s + t)[i])
    ensures ValueOf(v, s + t) == ValueOf(ValueOf(v, s), t)
    decreases s
  {
    if s == [] {
      assert s + t == t;
    } else {
      ValueSplits(v * 10 + DigitValue(s[0]), s[1..], t);
      assert (s + t)[1..] == s[1..] + t;
    }
  }

  /** Digits writes what ValueOf reads. */
  lemma {:induction false} DigitsRoundTrip(n: nat)
    ensures forall i | 0 <= i < |Digits(n)| :: IsDigit(Digits(n)[i])
    ensures ValueOf(0, Digits(n)) == n
  {
    if n < 10 {
      assert ValueOf(0, [Digit(n)]) == ValueOf(n, [Digit(n)][1..]);
    } else {
      DigitsRoundTrip(n / 10);
      ValueSplits(0, Digits(n / 10), [Digit(n % 10)]);
      assert ValueOf(n / 10, [Digit(n % 10)]) == ValueOf(n / 10 * 10 + n % 10, [Digit(n % 10)][1..]);
    }
  }

  lemma {:induction false} ZerosAreNothing(k: nat)
    ensures ValueOf(0, Repeat('0', k)) == 0
  {
    if k > 0 {
      ZerosAreNothing(k - 1);
      assert Repeat('0', k)[1..] == Repeat('0', k - 1);
    }
  }

  /** The number the matcher reads from digits followed by something else. */
  lemma {:induction false} ReadsDigits(v: int, s: string, rest: string)
    requires v >= 0 && (forall i | 0 <= i < |s| :: IsDigit(s[i])) && ValueOf(v, s) <= INT_MAX
    requires rest == [] || !IsDigit(rest[0])
    ensures Accumulate(v, s + rest) == (ValueOf(v, s), false, rest)
    decreases s
  {
    hide ToInt;
    if s == [] {
      assert s + rest == rest;
    } else {
      var w := v * 10 + DigitValue(s[0]);
      ValueGrows(w, s[1..]);
      ReadsDigits(w, s[1..], rest);
      assert (s + rest)[1..] == s[1..] + rest;
    }
  }

  /** Wrapping round early or late makes no difference. */
  lemma ToIntOfToInt(x: int, d: int)
    ensures ToInt(10 * ToInt(x) + d) == ToInt(10 * x + d)
  {
    var n := 0x1_0000_0000;
    var q := (x + 0x8000_0000) / n;
    assert ToInt(x) == x - q * n;
    SameRemainder(10 * x + d + 0x8000_0000, 10 * q, n);
  }

  lemma SameRemainder(a: int, q: int, n: int)
    requires n > 0
    ensures (a - q * n) % n == a % n
  {
    var k := a / n;
    DivMod(a, n);
    TimesDifference(k, q, n);
    DivModUnique(a - q * n, n, k - q, a % n);
  }

  lemma TimesDifference(a: int, b: int, n: int)
    ensures (a - b) * n == a * n - b * n
  {
  }

  /** While the digits are read, the number so far wraps round to a negative one. */
  ghost predicate WrapsBelow(x: int, s: string)
    requires forall i | 0 <= i < |s| :: IsDigit(s[i])
  {
    exists k :: 0 < k <= |s| && ToInt(ValueOf(x, s[..k])) < 0
  }

  lemma WrapsLater(x: int, s: string)
    requires (forall i | 0 <= i < |s| :: IsDigit(s[i])) && s != []
    ensures WrapsBelow(x, s) <==>
            ToInt(x * 10 + DigitValue(s[0])) < 0 || WrapsBelow(x * 10 + DigitValue(s[0]), s[1..])
  {
    hide ToInt;
    var w := x * 10 + DigitValue(s[0]);
    assert ValueOf(x, s[..1]) == w by {
      assert s[..1][1..] == [];
    }
    if ToInt(w) < 0 {
      assert 0 < 1 <= |s| && ToInt(ValueOf(x, s[..1])) < 0;
    }
    forall k | 0 < k <= |s[1..]|
      ensures ValueOf(x, s[..k + 1]) == ValueOf(w, s[1..][..k])
    {
      assert s[..k + 1][1..] == s[1..][..k];
    }
    if WrapsBelow(w, s[1..]) {
      var k :| 0 < k <= |s[1..]| && ToInt(ValueOf(w, s[1..][..k])) < 0;
      assert ToInt(ValueOf(x, s[..k + 1])) < 0;
    }
    if WrapsBelow(x, s) && ToInt(w) >= 0 {
      var k :| 0 < k <= |s| && ToInt(ValueOf(x, s[..k])) < 0;
      assert k > 1 && ToInt(ValueOf(w, s[1..][..k - 1])) < 0;
    }
  }

  lemma {:induction false} SkipsDigits(s: string, rest: string)
    requires (forall i | 0 <= i < |s| :: IsDigit(s[i])) && (rest == [] || !IsDigit(rest[0]))
    ensures SkipDigits(s + rest) == rest
  {
    if s == [] {
      assert s + rest == rest;
    } else {
      assert (s + rest)[1..] == s[1..] + rest;
      SkipsDigits(s[1..], rest);
    }
  }

  /**
   Overflow: it is put on record exactly when the number wraps round to a negative one while it is read;
   otherwise the value is what is left of the number after wrapping round.
   */
  lemma {:induction false} OverflowExactly(x: int, s: string, rest: string)
    requires x >= 0 && ToInt(x) >= 0 && (forall i | 0 <= i < |s| :: IsDigit(s[i]))
    requires rest == [] || !IsDigit(rest[0])
    ensures Accumulate(ToInt(x), s + rest) ==
            (if WrapsBelow(x, s) then INT_MAX else ToInt(ValueOf(x, s)), WrapsBelow(x, s), rest)
    decreases s
  {
    hide ToInt;
    if s == [] {
      assert s + rest == rest;
    } else {
      var w := x * 10 + DigitValue(s[0]);
      hide WrapsBelow;
      WrapsLater(x, s);
      ToIntOfToInt(x, DigitValue(s[0]));
      assert (s + rest)[1..] == s[1..] + rest;
      if ToInt(w) < 0 {
        SkipsDigits(s[1..], rest);
      } else {
        OverflowExactly(w, s[1..], rest);
      }
    }
  }

  lemma {:induction false} ReadsOn(v: int, s: string, t: string)
    requires v >= 0 && (forall i | 0 <= i < |s| :: IsDigit(s[i])) && ValueOf(v, s) <= INT_MAX
    ensures Accumulate(v, s + t) == Accumulate(ValueOf(v, s), t)
    decreases s
  {
    hide ToInt;
    if s == [] {
      assert s + t == t;
    } else {
      var w := v * 10 + DigitValue(s[0]);
      ValueGrows(w, s[1..]);
      ReadsOn(w, s[1..], t);
      assert (s + t)[1..] == s[1..] + t && (s + t)[0] == s[0];
    }
  }

  lemma FirstDigit(d: string)
    requires d != [] && forall i | 0 <= i < |d| :: IsDigit(d[i])
    ensures ValueOf(0, d) == ValueOf(DigitValue(d[0]), d[1..])
  {
    assert 0 * 10 + DigitValue(d[0]) == DigitValue(d[0]);
  }

  lemma StartsWithDigit(d: string, t: string)
    requires d != [] && IsDigit(d[0])
    ensures SkipSign(d + t, false) == Some(d + t) && (d + t)[0] == d[0] && (d + t)[1..] == d[1..] + t
  {
    assert IsDigit((d + t)[0]);
  }

  lemma ScansOn(d: string, n: nat, t: string)
    requires d != [] && (forall i | 0 <= i < |d| :: IsDigit(d[i])) && ValueOf(0, d) == n <= INT_MAX
    ensures ScanInt(d + t) == Some(Accumulate(n, t))
  {
    FirstDigit(d);
    StartsWithDigit(d, t);
    hide ValueOf, Accumulate, SkipSign;
    ReadsOn(DigitValue(d[0]), d[1..], t);
  }

  lemma WrapsToZero(n: int)
    requires n == 429496729
    ensures Accumulate(n, "6") == (0, false, "")
  {
    assert ToInt(n * 10 + 6) == 0;
    assert "6"[1..] == "";
    assert Accumulate(0, "") == (0, false, "");
  }

  /** So 4294967296 is read as 0 and nothing is put on record. */
  lemma UnrecordedOverflow()
    ensures ScanInt(Digits(429496729) + "6") == Some((0, false, ""))
  {
    var n: nat :| n == 429496729;
    DigitsRoundTrip(n);
    hide Digits, ScanInt, Accumulate, ToInt;
    ScansOn(Digits(n), n, "6");
    WrapsToZero(n);
  }

  lemma {:induction false} SkipsBlanks(n: int, s: string, signed: bool)
    ensures SkipSign(Repeat(' ', n) + s, signed) == SkipSign(s, signed)
  {
    if n > 0 {
      SkipsBlanks(n - 1, s, signed);
      assert (Repeat(' ', n) + s)[1..] == Repeat(' ', n - 1) + s;
    } else {
      assert Repeat(' ', n) + s == s;
    }
  }

  ghost predicate AllDigits(s: string) {
    |s| > 0 && forall i | 0 <= i < |s| :: IsDigit(s[i])
  }

  /** A sign stops no digits. */
  lemma SkipsSign(sign: string, digits: string, rest: string)
    requires (sign == "" || sign == "+" || sign == "-") && AllDigits(digits)
    ensures SkipSign(sign + (digits + rest), false) == Some(digits + rest)
  {
    var s := digits + rest;
    assert IsDigit(s[0]);
    assert SkipSign(s, true) == Some(s) && SkipSign(s, false) == Some(s);
    if sign == "" {
      assert sign + s == s;
    } else {
      assert (sign + s)[0] == sign[0] && (sign + s)[1..] == s;
    }
  }

  /** Blanks, perhaps a sign, and digits: the matcher reads the digits. */
  lemma ReadsNumber(blanks: int, sign: string, digits: string, rest: string)
    requires (sign == "" || sign == "+" || sign == "-") && AllDigits(digits) && ValueOf(0, digits) <= INT_MAX
    requires rest == [] || !IsDigit(rest[0])
    ensures ScanInt(Repeat(' ', blanks) + sign + digits + rest) == Some((ValueOf(0, digits), false, rest))
  {
    hide Accumulate, Repeat, SkipSign;
    var s := digits + rest;
    Regroup(Repeat(' ', blanks), sign, digits, rest);
    SkipsBlanks(blanks, sign + s, false);
    SkipsSign(sign, digits, rest);
    assert s[0] == digits[0] && s[1..] == digits[1..] + rest;
    ReadsDigits(DigitValue(digits[0]), digits[1..], rest);
  }

  lemma Regroup(a: string, b: string, c: string, d: string)
    ensures a + b + c + d == a + (b + (c + d))
  {
  }

  /** A printed number is blanks, perhaps a sign, digits, and blanks again. */
  lemma PrintedShape(f: Spec, v: int) returns (blanks: int, sign: string, digits: string)
    ensures sign == "" || sign == "+" || sign == "-"
    ensures AllDigits(digits) && ValueOf(0, digits) == Abs(v)
    ensures Printed(f, v) == Repeat(' ', blanks) + sign + digits + Repeat(' ', Trailing(f, v))
  {
    hide Digits, Trailing, Padding, Blank, Printed, Repeat, ValueOf;
    DigitsRoundTrip(Abs(v));
    var zeros, d := Repeat('0', f.precs - |Digits(Abs(v))|), Digits(Abs(v));
    LeadingZeros(f.precs - |Digits(Abs(v))|, d);
    if Pad(f) == ' ' {
      blanks, sign, digits := Blank(f, v) + Padding(f, v), if v < 0 then "-" else if f.plus then "+" else "", zeros + d;
      BlankPadded(f, v);
    } else {
      blanks, sign, digits := Blank(f, v), if v < 0 then "-" else "", Repeat('0', Padding(f, v)) + (zeros + d);
      LeadingZeros(Padding(f, v), zeros + d);
      ZeroPadded(f, v);
    }
  }

  lemma BlankPadded(f: Spec, v: int)
    requires Pad(f) == ' '
    ensures Printed(f, v) ==
            Repeat(' ', Blank(f, v) + Padding(f, v)) + (if v < 0 then "-" else if f.plus then "+" else "") +
            (Repeat('0', f.precs - |Digits(Abs(v))|) + Digits(Abs(v))) + Repeat(' ', Trailing(f, v))
  {
    hide Digits, Trailing, Padding, Blank;
    BlanksJoin(Blank(f, v), Padding(f, v));
    hide Repeat;
    ShapeOfBlanks(Repeat(' ', Blank(f, v)), Repeat(' ', Padding(f, v)), if v < 0 then "-" else if f.plus then "+"
        else "",
                  Repeat('0', f.precs - |Digits(Abs(v))|), Digits(Abs(v)), Repeat(' ', Trailing(f, v)));
  }

  lemma ZeroPadded(f: Spec, v: int)
    requires Pad(f) != ' '
    ensures Printed(f, v) ==
            Repeat(' ', Blank(f, v)) + (if v < 0 then "-" else "") +
            (Repeat('0', Padding(f, v)) + (Repeat('0', f.precs - |Digits(Abs(v))|) + Digits(Abs(v))))
                + Repeat(' ', Trailing(f, v))
  {
    hide Digits, Trailing, Padding, Blank, Repeat;
    assert Pad(f) == '0' && !f.plus;
    ShapeOfZeros(Repeat(' ', Blank(f, v)), if v < 0 then "-" else "", Repeat('0', Padding(f, v)),
                 Repeat('0', f.precs - |Digits(Abs(v))|), Digits(Abs(v)), Repeat(' ', Trailing(f, v)));
  }

  lemma BlanksJoin(m: nat, n: nat)
    ensures Repeat(' ', m) + Repeat(' ', n) == Repeat(' ', m + n)
  {
  }

  lemma ShapeOfBlanks(a: string, b: string, sign: string, zeros: string, d: string, t: string)
    ensures a + "" + b + sign + zeros + d + t == (a + b) + sign + (zeros + d) + t
  {
  }

  lemma ShapeOfZeros(a: string, sign: string, b: string, zeros: string, d: string, t: string)
    ensures a + sign + b + "" + zeros + d + t == a + sign + (b + (zeros + d)) + t
  {
  }

  lemma LeadingZeros(n: int, s: string)
    requires forall i | 0 <= i < |s| :: IsDigit(s[i])
    ensures forall i | 0 <= i < |Repeat('0', n) + s| :: IsDigit((Repeat('0', n) + s)[i])
    ensures ValueOf(0, Repeat('0', n) + s) == ValueOf(0, s)
  {
    ValueSplits(0, Repeat('0', n), s);
    if n > 0 {
      ZerosAreNothing(n);
    }
  }

  ghost predicate IsWord(s: string) {
    |s| > 0 && IsLetter(s[0]) && forall i | 0 <= i < |s| :: IsWordChar(s[i])
  }

  /**
   Every directive's output has an end of its own: a number is followed by something that is no digit,
   if only by its own blanks, and fits an int; a text is a word and is followed by something else.
   */
  ghost predicate SeparatedItem(item: Item, env: Env, rest: string) {
    match item
    case Plain(_) => true
    case Percent => true
    case Number(key, spec) =>
      && Abs(env.ints(key)) <= INT_MAX
      && (Trailing(spec, env.ints(key)) > 0 || rest == [] || !IsDigit(rest[0]))
    case Text(key) => IsWord(env.texts(key)) && (rest == [] || !IsWordChar(rest[0]))
  }

  ghost predicate Separated(items: seq<Item>, env: Env) {
    items != [] ==> SeparatedItem(items[0], env, Output(items[1..], env)) && Separated(items[1..], env)
  }

  /**
   The blanks a number leaves behind it, b of them so far, are taken up by the directives that follow:
   numbers and texts skip blanks, a blank of the format takes one and passes on as many, and nothing
   else takes any.
   */
  predicate BlanksTaken(items: seq<Item>, env: Env, b: nat) {
    if items == [] then b == 0
    else
      match items[0]
      case Plain(ch) => if ch == ' ' then BlanksTaken(items[1..], env, b) else b == 0 && BlanksTaken(items[1..], env, 0)
      case Percent => b == 0 && BlanksTaken(items[1..], env, 0)
      case Number(key, spec) => BlanksTaken(items[1..], env, Max(Trailing(spec, env.ints(key)), 0))
      case Text(_) => BlanksTaken(items[1..], env, 0)
  }

  /** What a complete match of one directive records. */
  function Recorded(item: Item, env: Env, recs: map<char, Record>): map<char, Record> {
    match item
    case Number(key, _) => PutValue(recs, key, Abs(env.ints(key)), false)
    case Text(key) => PutText(recs, key, env.texts(key))
    case Plain(_) => recs
    case Percent => recs
  }

  /** The records of a complete match. */
  function Recovered(items: seq<Item>, env: Env, recs: map<char, Record>): map<char, Record>
    decreases |items|
  {
    if items == [] then recs else Recovered(items[1..], env, Recorded(items[0], env, recs))
  }

  lemma NothingBehind(s: string)
    ensures s + [] == s
  {
  }

  /** A printed number, behind b blanks: the matcher reads it and stops at its trailing blanks. */
  lemma ReadsPrinted(f: Spec, v: int, rest: string, b: nat)
    requires Abs(v) <= INT_MAX && (Trailing(f, v) > 0 || rest == [] || !IsDigit(rest[0]))
    ensures ScanInt(Repeat(' ', b) + (Printed(f, v) + rest)) ==
            Some((Abs(v), false, Repeat(' ', Trailing(f, v)) + rest))
  {
    hide ScanInt, Printed, Trailing;
    var blanks, sign, digits := PrintedShape(f, v);
    var behind := Repeat(' ', Trailing(f, v));
    assert behind + rest == [] || !IsDigit((behind + rest)[0]);
    BlanksPrefix(b, blanks);
    Regrouped(Repeat(' ', b), Repeat(' ', blanks), sign, digits, behind, rest);
    hide Repeat;
    ReadsNumber(b + Max(blanks, 0), sign, digits, behind + rest);
  }

  lemma BlanksPrefix(m: nat, n: int)
    ensures Repeat(' ', m) + Repeat(' ', n) == Repeat(' ', m + Max(n, 0))
  {
  }

  lemma Regrouped(a: string, b: string, c: string, d: string, e: string, f: string)
    ensures a + (b + c + d + e + f) == (a + b) + c + d + (e + f)
  {
  }

  lemma {:induction false} WordIsRead(s: string, rest: string)
    requires forall i | 0 <= i < |s| :: IsWordChar(s[i])
    requires rest == [] || !IsWordChar(rest[0])
    ensures WordLength(s + rest) == |s|
  {
    if s == [] {
      assert s + rest == rest;
    } else {
      assert (s + rest)[1..] == s[1..] + rest;
      WordIsRead(s[1..], rest);
    }
  }

  lemma {:induction false} BlanksAreSkipped(b: nat, s: string)
    requires s != [] && s[0] != ' '
    ensures SkipBlanks(Repeat(' ', b) + s) == s
  {
    if b > 0 {
      BlanksAreSkipped(b - 1, s);
      assert (Repeat(' ', b) + s)[1..] == Repeat(' ', b - 1) + s;
    } else {
      assert Repeat(' ', b) + s == s;
    }
  }

  lemma ReadsText(s: string, rest: string, b: nat)
    requires IsWord(s) && (rest == [] || !IsWordChar(rest[0]))
    ensures ScanText(Repeat(' ', b) + (s + rest)) == Some((s, rest))
  {
    assert (s + rest)[0] == s[0];
    BlanksAreSkipped(b, s + rest);
    hide SkipBlanks;
    WordIsRead(s, rest);
  }

  /** A character of the format against b blanks and what it has itself become. */
  lemma PlainAgainstBlanks(ch: char, b: nat, rest: string)
    ensures var s := Repeat(' ', b) + ([ch] + rest);
            && s != [] && (s[0] == ch <==> b == 0 || ch == ' ')
            && (s[0] == ch ==> s[1..] == Repeat(' ', b) + rest)
  {
    var s := Repeat(' ', b) + ([ch] + rest);
    if b > 0 {
      assert s[0] == ' ';
      assert Repeat(' ', b)[1..] + [' '] == Repeat(' ', b);
      assert ch == ' ' ==> s[1..] == (Repeat(' ', b)[1..] + [' ']) + rest;
    } else {
      assert s == [ch] + rest && Repeat(' ', b) + rest == rest;
    }
  }

  /**
   The matcher accepts what the formatter has written exactly when all trailing blanks are taken up,
   and then it recovers every text and every magnitude.
   */
  lemma {:induction false} MatchUndoesFormat(items: seq<Item>, env: Env, recs: map<char, Record>, b: nat)
    requires Separated(items, env)
    ensures var m := Matched(items, Repeat(' ', b) + Output(items, env), recs);
            && (m.0 <==> BlanksTaken(items, env, b))
            && (m.0 ==> m.1 == Recovered(items, env, recs))
    decreases |items|
  {
    hide ScanInt, ScanText, Printed, Trailing, Repeat;
    if items == [] {
      NoBlanks(b);
    } else {
      var rest := Output(items[1..], env);
      assert SeparatedItem(items[0], env, rest);
      match items[0]
      case Plain(ch) =>
        PlainAgainstBlanks(ch, b, rest);
        MatchUndoesFormat(items[1..], env, recs, b);
      case Percent =>
        PlainAgainstBlanks('%', b, rest);
        MatchUndoesFormat(items[1..], env, recs, b);
      case Number(key, spec) =>
        var v := env.ints(key);
        ReadsPrinted(spec, v, rest, b);
        SameBlanks(Trailing(spec, v));
        MatchUndoesFormat(items[1..], env, Recorded(items[0], env, recs), Max(Trailing(spec, v), 0));
      case Text(key) =>
        ReadsText(env.texts(key), rest, b);
        NoBlanks(0);
        NothingBefore(rest);
        MatchUndoesFormat(items[1..], env, Recorded(items[0], env, recs), 0);
    }
  }

  lemma NoBlanks(b: nat)
    ensures Repeat(' ', b) + [] == [] <==> b == 0
    ensures b == 0 ==> Repeat(' ', b) == []
  {
  }

  lemma NothingBefore(s: string)
    ensures [] + s == s
  {
  }

  lemma SameBlanks(n: int)
    ensures Repeat(' ', Max(n, 0)) == Repeat(' ', n)
  {
  }

  /** Without that separation a format may be accepted by accident, with other texts than were written. */
  lemma MatchedByAccident(env: Env, recs: map<char, Record>)
    requires env.texts('a') == "x y" && env.texts('b') == ""
    ensures Matched([Text('a'), Text('b')], Output([Text('a'), Text('b')], env), recs).0
    ensures Matched([Text('a'), Text('b')], Output([Text('a'), Text('b')], env), recs).1['a'].text == "x"
  {
    var items := [Text('a'), Text('b')];
    assert items[1..] == [Text('b')];
    OneItem(Text('b'), env);
    assert Output(items, env) == "x y";
    ReadsText("x", " y", 0);
    ReadsText("y", "", 1);
    assert Repeat(' ', 0) + ("x" + " y") == "x y" && Repeat(' ', 1) + ("y" + "") == " y";
    hide ScanText;
    assert [Text('b')][1..] == [];
  }

  /** The format converts this key as a number somewhere. */
  predicate NumberKey(items: seq<Item>, key: char) {
    exists i :: 0 <= i < |items| && items[i].Number? && items[i].key == key
  }

  /** The value recovered for a number is the one printed exactly when that was not negative: the sign is lost. */
  lemma {:induction false} RecoversValue(items: seq<Item>, env: Env, recs: map<char, Record>, key: char)
    requires NumberKey(items, key) || (key in recs && recs[key].matched && recs[key].value == Abs(env.ints(key)))
    ensures key in Recovered(items, env, recs) && Recovered(items, env, recs)[key].matched
    ensures Recovered(items, env, recs)[key].value == env.ints(key) <==> env.ints(key) >= 0
    decreases |items|
  {
    if items != [] {
      assert forall i | 0 <= i < |items[1..]| :: items[1..][i] == items[i + 1];
      if NumberKey(items, key) && !(items[0].Number? && items[0].key == key) {
        var i :| 0 <= i < |items| && items[i].Number? && items[i].key == key;
        assert items[1..][i - 1] == items[i];
      }
      RecoversValue(items[1..], env, Recorded(items[0], env, recs), key);
    }
  }

  /** The format converts this key as a text somewhere. */
  predicate TextKey(items: seq<Item>, key: char) {
    exists i :: 0 <= i < |items| && items[i].Text? && items[i].key == key
  }

  /** Every text comes back as it was, whatever else the format converts. */
  lemma {:induction false} RecoversText(items: seq<Item>, env: Env, recs: map<char, Record>, key: char)
    requires TextKey(items, key) || (key in recs && recs[key].matched && recs[key].text == env.texts(key))
    ensures key in Recovered(items, env, recs) && Recovered(items, env, recs)[key].matched
    ensures Recovered(items, env, recs)[key].text == env.texts(key)
    decreases |items|
  {
    if items != [] {
      assert forall i | 0 <= i < |items[1..]| :: items[1..][i] == items[i + 1];
      if TextKey(items, key) && !(items[0].Text? && items[0].key == key) {
        var i :| 0 <= i < |items| && items[i].Text? && items[i].key == key;
        assert items[1..][i - 1] == items[i];
      }
      RecoversText(items[1..], env, Recorded(items[0], env, recs), key);
    }
  }

  /** A key that the format does not convert keeps its record. */
  lemma {:induction false} UnusedKept(items: seq<Item>, env: Env, recs: map<char, Record>, key: char)
    requires !NumberKey(items, key) && !TextKey(items, key)
    ensures key in Recovered(items, env, recs) <==> key in recs
    ensures key in recs ==> Recovered(items, env, recs)[key] == recs[key]
    decreases |items|
  {
    if items != [] {
      assert forall i | 0 <= i < |items[1..]| :: items[1..][i] == items[i + 1];
      UnusedKept(items[1..], env, Recorded(items[0], env, recs), key);
    }
  }

  /** An overflow stays on record, whatever is matched under the key afterwards. */
  lemma {:induction false} ErrorStays(items: seq<Item>, s: string, recs: map<char, Record>, key: char)
    requires key in recs && recs[key].err
    ensures key in Matched(items, s, recs).1 && Matched(items, s, recs).1[key].err
    decreases |items|
  {
    hide ScanInt, ScanText;
    if items != [] {
      match items[0]
      case Plain(ch) =>
        if s != [] {
          ErrorStays(items[1..], s[1..], recs, key);
        }
      case Percent =>
        if s != [] {
          ErrorStays(items[1..], s[1..], recs, key);
        }
      case Number(other, _) =>
        var r := ScanInt(s);
        if r.Some? {
          ErrorStays(items[1..], r.value.2, PutValue(recs, other, r.value.0, r.value.1), key);
        }
      case Text(other) =>
        var r := ScanText(s);
        if r.Some? {
          ErrorStays(items[1..], r.value.1, PutText(recs, other, r.value.0), key);
        }
    }
  }

  /** A number that overflows is on record in the end ... */
  lemma OverflowIsRecorded(items: seq<Item>, s: string, recs: map<char, Record>)
    requires items != [] && items[0].Number? && ScanInt(s).Some? && ScanInt(s).value.1
    ensures var m := Matched(items, s, recs); items[0].key in m.1 && m.1[items[0].key].err
  {
    hide ScanInt;
    var r := ScanInt(s).value;
    ErrorStays(items[1..], r.2, PutValue(recs, items[0].key, r.0, true), items[0].key);
  }

  /** ... and what the formatter has written adds nothing. */
  lemma {:induction false} NoNewErrors(items: seq<Item>, env: Env, recs: map<char, Record>, key: char)
    ensures key in Recovered(items, env, recs) && Recovered(items, env, recs)[key].err ==>
              key in recs && recs[key].err
    decreases |items|
  {
    if items != [] {
      NoNewErrors(items[1..], env, Recorded(items[0], env, recs), key);
    }
  }

  /** Without '-' and blank flag a number never ends in blanks. */
  lemma PlainFlagsReadable(f: Spec, v: int)
    requires !f.left && !f.space
    ensures Trailing(f, v) == 0
  {
  }

  /** A number on its own is matched exactly when it was printed without trailing blanks. */
  lemma AloneMatchesExactly(key: char, f: Spec, env: Env, recs: map<char, Record>)
    requires Abs(env.ints(key)) <= INT_MAX
    ensures Matched([Number(key, f)], Output([Number(key, f)], env), recs).0 <==> Trailing(f, env.ints(key)) <= 0
  {
    hide Trailing, Printed, ScanInt;
    var items := [Number(key, f)];
    assert items[1..] == [];
    MatchUndoesFormat(items, env, recs, 0);
    NothingBefore(Output(items, env));
  }
}
