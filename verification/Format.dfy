/**
 The integer formatter (jupiter/csvtmpl_format.c, 406-742): a first pass counts the bytes, a second
 one writes them.  A format is taken as the list of directives its lexer finds.
 */
module Format {

  /** The flags, width and precision of a conversion. */
  datatype Spec = Spec(plus: bool, space: bool, left: bool, zero: bool, width: nat, precs: nat)

  /** A character of its own, %%, a number or a text under a key. */
  datatype Item = Plain(ch: char) | Percent | Number(key: char, spec: Spec) | Text(key: char)

  /** The arguments. */
  datatype Env = Env(ints: char -> int, texts: char -> string)

  function Digit(d: int): (c: char)
    requires 0 <= d < 10
    ensures '0' <= c <= '9' && c as int - '0' as int == d
  {
    ('0' as int + d) as char
  }

  function Abs(v: int): nat {
    if v < 0 then -v else v
  }

  /** The decimal digits of a number. */
  function Digits(n: nat): (s: string)
    ensures |s| >= 1
  {
    if n < 10 then [Digit(n)] else Digits(n / 10) + [Digit(n % 10)]
  }

  function Repeat(ch: char, n: int): (s: string)
    ensures |s| == (if n > 0 then n else 0) && forall i | 0 <= i < |s| :: s[i] == ch
  {
    if n > 0 then seq(n, i => ch) else []
  }

  function Max(a: int, b: int): int { if a < b then b else a }

  /** The columns left for the number when a leading blank is asked for. */
  function Columns(f: Spec): nat {
    if f.space && f.width > 0 then f.width - 1 else f.width
  }

  /** The padding character: zeros only without '+' and without a precision. */
  function Pad(f: Spec): char {
    if f.plus || f.precs > 0 then ' ' else if f.zero then '0' else ' '
  }

  function Signed(f: Spec, v: int): bool {
    f.plus || v < 0
  }

  /** Sign, leading zeros and digits together. */
  function Body(f: Spec, v: int): nat {
    Max(|Digits(Abs(v))|, f.precs) + if Signed(f, v) then 1 else 0
  }

  function Padding(f: Spec, v: int): nat {
    if !f.left && Columns(f) > Body(f, v) then Columns(f) - Body(f, v) else 0
  }

  /** The bytes the first pass counts for a number. */
  function Counted(f: Spec, v: int): nat {
    Max(Body(f, v), Columns(f)) + if f.space && Columns(f) > 0 then 1 else 0
  }

  function Blank(f: Spec, v: int): nat {
    if !f.plus && f.space && v >= 0 then 1 else 0
  }

  /** The blanks that are left to fill up the counted width. */
  function Trailing(f: Spec, v: int): int {
    Counted(f, v) - Blank(f, v) - Padding(f, v) - Body(f, v)
  }

  /** What the second pass writes for a number. */
  function Printed(f: Spec, v: int): string {
    Repeat(' ', Blank(f, v)) +
    (if Pad(f) != ' ' && v < 0 then "-" else "") +
    Repeat(Pad(f), Padding(f, v)) +
    (if Pad(f) == ' ' && v < 0 then "-" else if f.plus then "+" else "") +
    Repeat('0', f.precs - |Digits(Abs(v))|) +
    Digits(Abs(v)) +
    Repeat(' ', Trailing(f, v))
  }

  /** The one case the first pass does not count: the blank for a non-negative number in at most one column. */
  predicate BlankUncounted(f: Spec, v: int) {
    f.space && !f.plus && v >= 0 && f.width <= 1
  }

  /** The two passes agree exactly outside that case, where the second writes one byte more. */
  lemma PassesAgreeOnNumber(f: Spec, v: int)
    ensures |Printed(f, v)| == Counted(f, v) + if BlankUncounted(f, v) then 1 else 0
  {
    hide Digits, Repeat;
    var sign := if Signed(f, v) then 1 else 0;
    var zeros := Max(f.precs - |Digits(Abs(v))|, 0);
    assert Body(f, v) == sign + zeros + |Digits(Abs(v))|;
    assert |Printed(f, v)| == Blank(f, v) + sign + Padding(f, v) + zeros + |Digits(Abs(v))| + Max(Trailing(f, v), 0);
  }

  /** A directive's output. */
  function Out(item: Item, env: Env): string {
    match item
    case Plain(ch) => [ch]
    case Percent => "%"
    case Number(key, spec) => Printed(spec, env.ints(key))
    case Text(key) => env.texts(key)
  }

  function Output(items: seq<Item>, env: Env): string {
    if items == [] then [] else Out(items[0], env) + Output(items[1..], env)
  }

  function Size(item: Item, env: Env): nat {
    match item
    case Plain(_) => 1
    case Percent => 1
    case Number(key, spec) => Counted(spec, env.ints(key))
    case Text(key) => |env.texts(key)|
  }

  function Count(items: seq<Item>, env: Env): nat {
    if items == [] then 0 else Size(items[0], env) + Count(items[1..], env)
  }

  predicate Uncounted(item: Item, env: Env) {
    item.Number? && BlankUncounted(item.spec, env.ints(item.key))
  }

  function UncountedItems(items: seq<Item>, env: Env): nat {
    if items == [] then 0 else (if Uncounted(items[0], env) then 1 else 0) + UncountedItems(items[1..], env)
  }

  /** Over a whole format the passes differ by exactly the number of such conversions. */
  lemma {:induction false} PassesAgree(items: seq<Item>, env: Env)
    ensures |Output(items, env)| == Count(items, env) + UncountedItems(items, env)
  {
    hide Printed, Counted, BlankUncounted;
    if items != [] {
      PassesAgree(items[1..], env);
      if items[0].Number? {
        PassesAgreeOnNumber(items[0].spec, env.ints(items[0].key));
      }
    }
  }

  lemma {:induction false} OutputSplits(a: seq<Item>, b: seq<Item>, env: Env)
    ensures Output(a + b, env) == Output(a, env) + Output(b, env)
    ensures Count(a + b, env) == Count(a, env) + Count(b, env)
  {
    hide Out, Size;
    if a == [] {
      assert a + b == b;
    } else {
      assert (a + b)[1..] == a[1..] + b;
      OutputSplits(a[1..], b, env);
    }
  }

  /** The digit-counting loop. */
  method CountDigits(v: int) returns (nd: nat)
    ensures nd == |Digits(Abs(v))|
  {
    if v != 0 {
      var it: nat := if v < 0 then -v else v;
      nd := 0;
      ghost var n := it;
      while it > 0
        invariant nd + (if it > 0 then |Digits(it)| else 0) == |Digits(n)|
      {
        nd := nd + 1;
        it := it / 10;
      }
    } else {
      nd := 1;
    }
  }

  /** What both passes compute before they count or write: the digits, the body, the padding and the width. */
  method Measure(f: Spec, v: int) returns (nd: nat, c: nat, lp: nat, w: nat, pad: char)
    ensures nd == |Digits(Abs(v))| && c == Body(f, v) && lp == Padding(f, v) && w == Counted(f, v) && pad == Pad(f)
  {
    hide Digits;
    pad := ' ';
    if f.zero {
      pad := '0';
    }
    if f.plus {
      pad := ' ';
    }
    var columns := f.width;
    if f.space && columns > 0 {
      columns := columns - 1;
    }
    if f.precs > 0 {
      pad := ' ';
    }
    nd := CountDigits(v);
    c := if nd < f.precs then f.precs else nd;
    if f.plus || v < 0 {
      c := c + 1;
    }
    if f.left {
      lp := 0;
    } else {
      if columns > c {
        lp := columns - c;
      } else {
        lp := 0;
      }
    }
    w := if c < columns then columns else c;
    if f.space && columns > 0 {
      w := w + 1;
    }
  }

  /** buf[at ..] := ch, as one `*(buf++) = ch`. */
  method Put(buf: array<char>, at: nat, ch: char) returns (next: nat)
    requires at < buf.Length
    modifies buf
    ensures next == at + 1 && buf[..next] == old(buf[..at]) + [ch]
  {
    buf[at] := ch;
    next := at + 1;
  }

  method PutRepeated(buf: array<char>, at: nat, ch: char, n: int) returns (next: nat)
    requires at + (if n > 0 then n else 0) <= buf.Length
    modifies buf
    ensures next == at + (if n > 0 then n else 0) && buf[..next] == old(buf[..at]) + Repeat(ch, n)
  {
    next := at;
    var left := n;
    while left > 0
      invariant left <= n && (n <= 0 ==> left == n) && (n > 0 ==> left >= 0)
      invariant next == at + (if n > 0 then n - left else 0)
      invariant buf[..next] == old(buf[..at]) + Repeat(ch, n - left)
    {
      next := Put(buf, next, ch);
      left := left - 1;
    }
  }

  lemma LastDigit(n: nat, tail: string)
    ensures n >= 10 ==> |Digits(n)| == |Digits(n / 10)| + 1
    ensures n >= 10 ==> Digits(n) + tail == Digits(n / 10) + ([Digit(n % 10)] + tail)
    ensures n < 10 ==> |Digits(n)| == 1 && Digits(n) + tail == [Digit(n % 10)] + tail
  {
  }

  /** The digits, written from the right. */
  method PutDigits(buf: array<char>, at: nat, n: nat, nd: nat) returns (next: nat)
    requires nd == |Digits(n)| && at + nd <= buf.Length
    modifies buf
    ensures next == at + nd && buf[..next] == old(buf[..at]) + Digits(n)
  {
    hide Digits, Digit;
    var c, rest := nd, n;
    assert Digits(n) + [] == Digits(n);
    while c > 0
      invariant 0 <= c <= nd && (c > 0 ==> c == |Digits(rest)|)
      invariant buf[..at] == old(buf[..at])
      invariant c > 0 ==> Digits(n) == Digits(rest) + buf[at + c..at + nd]
      invariant c == 0 ==> Digits(n) == buf[at..at + nd]
    {
      ghost var tail := buf[at + c..at + nd];
      buf[at + c - 1] := Digit(rest % 10);
      assert buf[at + c - 1..at + nd] == [Digit(rest % 10)] + tail;
      LastDigit(rest, tail);
      c := c - 1;
      rest := rest / 10;
    }
    next := at + nd;
    assert buf[..next] == buf[..at] + buf[at..next];
  }

  /** Writing t after what is there. */
  lemma Appended(all: string, before: string, p: string, done: string, t: string)
    requires before == p + done && all == before + t
    ensures all == p + (done + t)
  {
  }

  /** Blank, early minus sign and padding. */
  function Lead(f: Spec, v: int): string {
    Repeat(' ', Blank(f, v)) + (if Pad(f) != ' ' && v < 0 then "-" else "") + Repeat(Pad(f), Padding(f, v))
  }

  /** Late sign, zeros, digits and trailing blanks. */
  function Rest(f: Spec, v: int): string {
    Late(f, v) + Repeat('0', f.precs - |Digits(Abs(v))|) + Digits(Abs(v)) + Repeat(' ', Trailing(f, v))
  }

  /** The sign behind the padding. */
  function Late(f: Spec, v: int): string {
    if Pad(f) == ' ' && v < 0 then "-" else if f.plus then "+" else ""
  }

  lemma PrintedIsLeadAndRest(f: Spec, v: int)
    ensures Printed(f, v) == Lead(f, v) + Rest(f, v)
    ensures |Lead(f, v)| == Blank(f, v) + (if Pad(f) != ' ' && v < 0 then 1 else 0) + Padding(f, v)
    ensures |Rest(f, v)| == (if (Pad(f) == ' ' && v < 0) || f.plus then 1 else 0) + Max(f.precs, |Digits(Abs(v))|)
            + Max(Trailing(f, v), 0)
  {
    hide Digits, Trailing, Padding, Blank, Repeat;
    JoinSix(Repeat(' ', Blank(f, v)), if Pad(f) != ' ' && v < 0 then "-"
        else "", Repeat(Pad(f), Padding(f, v)), Late(f, v),
            Repeat('0', f.precs - |Digits(Abs(v))|), Digits(Abs(v)), Repeat(' ', Trailing(f, v)));
  }

  lemma JoinSix(a: string, b: string, c: string, d: string, e: string, g: string, h: string)
    ensures a + b + c + d + e + g + h == (a + b + c) + (d + e + g + h)
  {
  }

  method PutLead(buf: array<char>, at: nat, f: Spec, v: int, pad: char, lp: nat) returns (next: nat)
    requires pad == Pad(f) && lp == Padding(f, v) && at + |Lead(f, v)| <= buf.Length
    modifies buf
    ensures next == at + |Lead(f, v)| && buf[..next] == old(buf[..at]) + Lead(f, v)
  {
    hide Repeat, Padding;
    ghost var p := buf[..at];
    next := at;
    if !f.plus && f.space && v >= 0 {
      next := PutRepeated(buf, next, ' ', 1);
    }
    assert Repeat(' ', 0) == [];
    assert buf[..next] == p + Repeat(' ', Blank(f, v));
    if pad != ' ' && v < 0 {
      next := Put(buf, next, '-');
    }
    assert buf[..next] == p + (Repeat(' ', Blank(f, v)) + if pad != ' ' && v < 0 then "-" else "");
    next := PutRepeated(buf, next, pad, lp);
  }

  /** 1 where a sign comes before and after the padding. */
  function EarlySign(f: Spec, v: int): nat {
    if Pad(f) != ' ' && v < 0 then 1 else 0
  }

  function LateSign(f: Spec, v: int): nat {
    if (Pad(f) == ' ' && v < 0) || f.plus then 1 else 0
  }

  /** What is left of the body and of the width once the lead is written. */
  lemma LeftOver(f: Spec, v: int)
    ensures Body(f, v) - EarlySign(f, v) == LateSign(f, v) + Max(f.precs, |Digits(Abs(v))|)
    ensures Counted(f, v) - |Lead(f, v)| == LateSign(f, v) + Max(f.precs, |Digits(Abs(v))|) + Trailing(f, v)
  {
    hide Digits, Repeat, Lead, Counted;
    PrintedIsLeadAndRest(f, v);
  }

  method PutLateSign(buf: array<char>, at: nat, f: Spec, v: int, pad: char) returns (next: nat)
    requires pad == Pad(f) && at + |Late(f, v)| <= buf.Length
    modifies buf
    ensures next == at + |Late(f, v)| && |Late(f, v)| == LateSign(f, v) && buf[..next] == old(buf[..at]) + Late(f, v)
  {
    next := at;
    if pad == ' ' && v < 0 {
      next := Put(buf, next, '-');
    } else if f.plus {
      next := Put(buf, next, '+');
    }
  }

  method PutRest(buf: array<char>, at: nat, f: Spec, v: int, pad: char, nd: nat, body: nat,
                 width: int) returns (next: nat)
    requires pad == Pad(f) && nd == |Digits(Abs(v))| && body == LateSign(f, v) + Max(f.precs, nd)
    requires width == body + Trailing(f, v) && at + |Rest(f, v)| <= buf.Length
    modifies buf
    ensures next == at + |Rest(f, v)| && buf[..next] == old(buf[..at]) + Rest(f, v)
  {
    hide Repeat, Trailing, Digits;
    PrintedIsLeadAndRest(f, v);
    ghost var p := buf[..at];
    ghost var done := Late(f, v);
    var c, w := body, width;
    next := PutLateSign(buf, at, f, v, pad);
    c, w := c - (next - at), w - (next - at);
    ghost var before := buf[..next];
    next := PutRepeated(buf, next, '0', c - nd);
    NoneIsNone(f.precs - nd);
    Appended(buf[..next], before, p, done, Repeat('0', f.precs - nd));
    done := done + Repeat('0', f.precs - nd);
    w := w - (c - nd);
    c := nd;
    before := buf[..next];
    next := PutDigits(buf, next, if v < 0 then -v else v, c);
    Appended(buf[..next], before, p, done, Digits(Abs(v)));
    done := done + Digits(Abs(v));
    w := w - c;
    before := buf[..next];
    next := PutRepeated(buf, next, ' ', w);
    Appended(buf[..next], before, p, done, Repeat(' ', w));
  }

  lemma NoneIsNone(n: int)
    ensures Repeat('0', n) == Repeat('0', Max(n, 0))
  {
  }

  /** The second pass for a number; the room is what the first pass has counted. */
  method PutNumber(buf: array<char>, at: nat, f: Spec, v: int) returns (next: nat)
    requires at + Counted(f, v) <= buf.Length && !BlankUncounted(f, v)
    modifies buf
    ensures next == at + Counted(f, v) && buf[..next] == old(buf[..at]) + Printed(f, v)
  {
    hide Digits, Printed, Lead, Rest, Counted, Trailing, Body, Padding;
    PassesAgreeOnNumber(f, v);
    PrintedIsLeadAndRest(f, v);
    LeftOver(f, v);
    var nd, c, lp, w, pad := Measure(f, v);
    next := PutLead(buf, at, f, v, pad, lp);
    ghost var before := buf[..next];
    var rest := if pad != ' ' && v < 0 then c - 1 else c;
    next := PutRest(buf, next, f, v, pad, nd, rest, w - (next - at));
    Appended(buf[..next], before, old(buf[..at]), Lead(f, v), Rest(f, v));
  }

  /** The first pass: the bytes of all directives. */
  method CountBytes(items: seq<Item>, env: Env) returns (cnt: nat)
    ensures cnt == Count(items, env)
  {
    hide Counted;
    cnt := 0;
    for i := 0 to |items|
      invariant cnt == Count(items[..i], env)
    {
      assert items[..i + 1] == items[..i] + [items[i]];
      OutputSplits(items[..i], [items[i]], env);
      match items[i] {
        case Plain(ch) =>
          cnt := cnt + 1;
        case Percent =>
          cnt := cnt + 1;
        case Number(key, spec) =>
          var nd, c, lp, w, pad := Measure(spec, env.ints(key));
          cnt := cnt + w;
        case Text(key) =>
          cnt := cnt + |env.texts(key)|;
      }
      OneItem(items[i], env);
    }
    assert items[..|items|] == items;
  }

  lemma OneItem(item: Item, env: Env)
    ensures Count([item], env) == Size(item, env) && Output([item], env) == Out(item, env)
    ensures UncountedItems([item], env) == if Uncounted(item, env) then 1 else 0
  {
    hide Printed, Counted;
    assert Output([item][1..], env) == [];
  }

  lemma {:induction false} UncountedSplits(a: seq<Item>, b: seq<Item>, env: Env)
    ensures UncountedItems(a + b, env) == UncountedItems(a, env) + UncountedItems(b, env)
  {
    hide BlankUncounted;
    if a == [] {
      assert a + b == b;
    } else {
      assert (a + b)[1..] == a[1..] + b;
      UncountedSplits(a[1..], b, env);
    }
  }

  method PutText(buf: array<char>, at: nat, t: string) returns (next: nat)
    requires at + |t| <= buf.Length
    modifies buf
    ensures next == at + |t| && buf[..next] == old(buf[..at]) + t
  {
    next := at;
    for i := 0 to |t|
      invariant next == at + i && buf[..next] == old(buf[..at]) + t[..i]
    {
      next := Put(buf, next, t[i]);
    }
  }

  /** One directive of the second pass. */
  method PutItem(buf: array<char>, at: nat, item: Item, env: Env) returns (next: nat)
    requires at + Size(item, env) <= buf.Length && !Uncounted(item, env)
    modifies buf
    ensures next == at + Size(item, env) && buf[..next] == old(buf[..at]) + Out(item, env)
  {
    hide Counted, Printed;
    match item {
      case Plain(ch) =>
        next := Put(buf, at, ch);
      case Percent =>
        next := Put(buf, at, '%');
      case Number(key, spec) =>
        next := PutNumber(buf, at, spec, env.ints(key));
      case Text(key) =>
        next := PutText(buf, at, env.texts(key));
    }
  }

  /** Both passes.  The buffer the first one sizes is enough exactly when no blank goes uncounted. */
  method FormatIntegers(items: seq<Item>, env: Env) returns (buf: array<char>, r: nat)
    requires UncountedItems(items, env) == 0
    ensures fresh(buf) && buf.Length == r + 1
    ensures r == |Output(items, env)| && buf[..r] == Output(items, env) && buf[r] == '\0'
  {
    hide Count, Output, Out, Size, UncountedItems, Uncounted;
    var cnt := CountBytes(items, env);
    buf := new char[cnt + 1];
    var at := 0;
    PassesAgree(items, env);
    EmptyOutput(env);
    for i := 0 to |items|
      invariant at == Count(items[..i], env) && at <= cnt && buf[..at] == Output(items[..i], env)
    {
      assert items[..i + 1] == items[..i] + [items[i]];
      assert items[..i + 1] + items[i + 1..] == items;
      OneItem(items[i], env);
      OutputSplits(items[..i], [items[i]], env);
      OutputSplits(items[..i + 1], items[i + 1..], env);
      UncountedSplits(items[..i + 1], items[i + 1..], env);
      UncountedSplits(items[..i], [items[i]], env);
      at := PutItem(buf, at, items[i], env);
    }
    assert items[..|items|] == items;
    at := Put(buf, at, '\0');
    r := cnt;
  }

  lemma EmptyOutput(env: Env)
    ensures Output([], env) == [] && Count([], env) == 0
  {
  }
}
