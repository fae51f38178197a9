/**
 The formatter against the standard it claims to follow (jupiter/csvtmpl_format.h, 14-20): what a
 conversion specification of the C language means for an int (ISO C17, section 7.21.6.1), and exactly
 where the formatter (jupiter/csvtmpl_format.c, 484-692) writes something else.
 */
module FormatStandard {
  import opened Format

  /** The number with its zeros up to the precision; a precision of 0 counts as none. */
  function Precise(f: Spec, v: int): (s: string)
    ensures |s| == Max(|Digits(Abs(v))|, f.precs)
  {
    Repeat('0', f.precs - |Digits(Abs(v))|) + Digits(Abs(v))
  }

  function StandardSign(f: Spec, v: int): string {
    if v < 0 then "-" else if f.plus then "+" else if f.space then " " else ""
  }

  /** A precision of zero that has been written out, as dot tells, leaves nothing of the number 0. */
  predicate Vanishes(f: Spec, dot: bool, v: int) {
    dot && f.precs == 0 && v == 0
  }

  function StandardNumber(f: Spec, dot: bool, v: int): string {
    if Vanishes(f, dot, v) then "" else Precise(f, v)
  }

  /**
   The standard's result: the minus flag puts the padding behind the number, the zero flag without a
   precision makes it zeros behind the sign, and otherwise it is blanks in front.
   */
  function Standard(f: Spec, dot: bool, v: int): string {
    var sign, number := StandardSign(f, v), StandardNumber(f, dot, v);
    var fill := f.width - |sign| - |number|;
    if f.left then sign + number + Repeat(' ', fill)
    else if f.zero && !dot then sign + Repeat('0', fill) + number
    else Repeat(' ', fill) + sign + number
  }

  /** Formatter and standard pad with the same character. */
  predicate PadsAlike(f: Spec, dot: bool) {
    Pad(f) == '0' <==> f.zero && !dot
  }

  /**
   Where the formatter keeps to it.  It writes a 0 where the standard wants nothing, with a blank flag it
   leaves room for a blank also where a sign stands in its place, and it takes the zero flag for switched
   off by a plus flag but not by a written precision of zero.
   */
  predicate Complies(f: Spec, dot: bool, v: int) {
    && !Vanishes(f, dot, v)
    && (f.space && Signed(f, v) ==> f.width <= 1 || (f.left && Body(f, v) < f.width))
    && (f.left || f.width <= Body(f, v) + Blank(f, v) || PadsAlike(f, dot))
  }

  /** A number with its sign between blanks in front, zeros, and blanks behind. */
  function Written(lead: nat, sign: string, zeros: nat, number: string, trail: nat): string {
    Repeat(' ', lead) + sign + Repeat('0', zeros) + number + Repeat(' ', trail)
  }

  function Sign(f: Spec, v: int): string {
    if v < 0 then "-" else if f.plus then "+" else ""
  }

  lemma JoinBlanks(m: nat, n: nat, sign: string, number: string, t: string)
    ensures Repeat(' ', m) + Repeat(' ', n) + sign + number + t == Repeat(' ', m + n) + sign + [] + number + t
  {
    assert Repeat(' ', m) + Repeat(' ', n) == Repeat(' ', m + n);
    hide Repeat;
    DropEmpty(Repeat(' ', m + n) + sign, number + t);
  }

  lemma DropEmpty(a: string, b: string)
    ensures a + [] == a && [] + a == a && a + [] + b == a + b
  {
  }

  lemma NonePut(ch: char, n: int)
    ensures Repeat(ch, n) == Repeat(ch, Max(n, 0)) && (n <= 0 ==> Repeat(ch, n) == [])
  {
  }

  /** What the formatter writes: the padding is blanks in front or zeros behind the sign. */
  lemma PrintedIs(f: Spec, v: int)
    ensures Printed(f, v) ==
            if Pad(f) == ' ' then Written(Blank(f, v) + Padding(f, v), Sign(f, v), 0, Precise(f, v),
                Max(Trailing(f, v), 0))
            else Written(Blank(f, v), Sign(f, v), Padding(f, v), Precise(f, v), Max(Trailing(f, v), 0))
  {
    NonePut(' ', Trailing(f, v));
    NonePut('0', 0);
    hide Digits, Blank, Padding, Trailing, Repeat;
    if Pad(f) == ' ' {
      JoinBlanks(Blank(f, v), Padding(f, v), Sign(f, v), Precise(f, v), Repeat(' ', Trailing(f, v)));
      EmptySign(Repeat(' ', Blank(f, v)), Repeat(' ', Padding(f, v)), Sign(f, v),
                Repeat('0', f.precs - |Digits(Abs(v))|), Digits(Abs(v)), Repeat(' ', Trailing(f, v)));
    } else {
      NoLaterSign(Repeat(' ', Blank(f, v)), Sign(f, v), Repeat('0', Padding(f, v)),
                  Repeat('0', f.precs - |Digits(Abs(v))|), Digits(Abs(v)), Repeat(' ', Trailing(f, v)));
    }
  }

  lemma EmptySign(a: string, b: string, sign: string, z: string, d: string, t: string)
    ensures a + "" + b + sign + z + d + t == a + b + sign + (z + d) + t
  {
  }

  lemma NoLaterSign(a: string, sign: string, b: string, z: string, d: string, t: string)
    ensures a + sign + b + "" + z + d + t == a + sign + b + (z + d) + t
  {
  }

  /** The room the standard has left to fill. */
  function Fill(f: Spec, v: int): nat {
    Max(f.width - |StandardSign(f, v)| - |Precise(f, v)|, 0)
  }

  /** The standard's result in the same parts; a blank for a sign is one more blank in front. */
  lemma StandardIs(f: Spec, dot: bool, v: int)
    requires !Vanishes(f, dot, v)
    ensures var blank := if v >= 0 && !f.plus && f.space then 1 else 0;
            Standard(f, dot, v) ==
            if f.left then Written(blank, Sign(f, v), 0, Precise(f, v), Fill(f, v))
            else if f.zero && !dot then Written(blank, Sign(f, v), Fill(f, v), Precise(f, v), 0)
            else Written(Fill(f, v) + blank, Sign(f, v), 0, Precise(f, v), 0)
  {
    var blank := if v >= 0 && !f.plus && f.space then 1 else 0;
    var fill := f.width - |StandardSign(f, v)| - |Precise(f, v)|;
    SignSplits(f, v);
    NonePut(' ', fill);
    NonePut('0', fill);
    NonePut(' ', 0);
    NonePut('0', 0);
    MoreBlanks(Fill(f, v), blank);
    hide Repeat, Precise, StandardSign, Sign;
    var sign, number := Sign(f, v), Precise(f, v);
    SplitSign(Repeat(' ', blank), sign, number, Repeat(' ', fill));
    SplitSign(Repeat(' ', blank), sign, Repeat('0', fill), number);
    BlankAfterBlanks(Repeat(' ', fill), Repeat(' ', blank), sign, number);
  }

  lemma SignSplits(f: Spec, v: int)
    ensures StandardSign(f, v) == Repeat(' ', if v >= 0 && !f.plus && f.space then 1 else 0) + Sign(f, v)
  {
    assert Repeat(' ', 1) == " ";
  }

  lemma MoreBlanks(m: nat, n: nat)
    ensures Repeat(' ', m) + Repeat(' ', n) == Repeat(' ', m + n)
  {
  }

  lemma SplitSign(blank: string, sign: string, a: string, b: string)
    ensures (blank + sign) + a + b == blank + sign + "" + a + b
    ensures (blank + sign) + a + b == blank + sign + a + b + ""
  {
  }

  lemma BlankAfterBlanks(fill: string, blank: string, sign: string, number: string)
    ensures fill + (blank + sign) + number == (fill + blank) + sign + "" + number + ""
  {
  }

  /** The lengths of the parts. */
  lemma PartLengths(f: Spec, v: int)
    ensures |Sign(f, v)| == if Signed(f, v) then 1 else 0
    ensures |StandardSign(f, v)| == |Sign(f, v)| + if v >= 0 && !f.plus && f.space then 1 else 0
    ensures Body(f, v) == |Sign(f, v)| + |Precise(f, v)| && |Precise(f, v)| > 0
  {
    hide Digits, Repeat;
  }

  /** How much both pad: the same, but for a blank kept beside a sign. */
  lemma SameCounts(f: Spec, v: int)
    requires f.space && Signed(f, v) ==> f.width <= 1 || (f.left && Body(f, v) < f.width)
    ensures f.left ==> Padding(f, v) == 0 && Max(Trailing(f, v), 0) == Fill(f, v)
    ensures !f.left ==> Padding(f, v) == Fill(f, v) && Max(Trailing(f, v), 0) == 0
    ensures Fill(f, v) > 0 <==> Body(f, v) + Blank(f, v) < f.width
    ensures Blank(f, v) == if v >= 0 && !f.plus && f.space then 1 else 0
  {
    PartLengths(f, v);
    hide Body, Precise, Digits, Sign, StandardSign, Repeat;
  }

  lemma SameParts(f: Spec, dot: bool, v: int)
    requires Complies(f, dot, v)
    ensures Printed(f, v) == Standard(f, dot, v)
  {
    PrintedIs(f, v);
    StandardIs(f, dot, v);
    SameCounts(f, v);
    hide Written, Printed, Standard, Precise, Digits, Sign, StandardSign, Fill, Padding, Trailing, Blank, Max, Body,
      Vanishes, Repeat;
  }

  lemma WrittenAt(lead: nat, sign: string, zeros: nat, number: string, trail: nat)
    requires |number| > 0
    ensures var w := Written(lead, sign, zeros, number, trail);
            && |w| == lead + |sign| + zeros + |number| + trail
            && (forall i | 0 <= i < lead :: w[i] == ' ')
            && (|sign| > 0 ==> w[lead] == sign[0])
            && (|sign| == 0 && zeros > 0 ==> w[lead] == '0')
            && w[lead + |sign| + zeros] == number[0]
            && w[|w| - 1] == if trail > 0 then ' ' else number[|number| - 1]
  {
    hide Repeat;
  }

  lemma NumberIsIn(lead: nat, sign: string, zeros: nat, number: string, trail: nat)
    requires |number| > 0
    ensures number[0] in Written(lead, sign, zeros, number, trail)
  {
    WrittenAt(lead, sign, zeros, number, trail);
    hide Written;
  }

  lemma NoZeroIn(f: Spec, dot: bool, v: int)
    requires Vanishes(f, dot, v)
    ensures '0' !in Standard(f, dot, v)
  {
    hide Precise;
  }

  /** The 0 that the standard leaves out. */
  lemma ZeroShows(f: Spec, dot: bool, v: int)
    requires Vanishes(f, dot, v)
    ensures Printed(f, v) != Standard(f, dot, v)
  {
    PrintedIs(f, v);
    assert Precise(f, v) == ['0'];
    NumberIsIn(Blank(f, v) + Padding(f, v), Sign(f, v), 0, Precise(f, v), Max(Trailing(f, v), 0));
    NumberIsIn(Blank(f, v), Sign(f, v), Padding(f, v), Precise(f, v), Max(Trailing(f, v), 0));
    NoZeroIn(f, dot, v);
    hide Written, Printed, Standard, Precise, Sign, Padding, Trailing, Blank, Repeat, Digits;
  }

  /** Different padding: zeros against blanks. */
  lemma PaddingShows(f: Spec, dot: bool, v: int)
    requires !Vanishes(f, dot, v) && !f.left && Body(f, v) + Blank(f, v) < f.width && !PadsAlike(f, dot)
    requires f.precs > 0 ==> dot
    requires f.space && Signed(f, v) ==> f.width <= 1
    ensures Printed(f, v) != Standard(f, dot, v)
  {
    PrintedIs(f, v);
    StandardIs(f, dot, v);
    SameCounts(f, v);
    PartLengths(f, v);
    SignIsNoBlank(f, v);
    var blank := Blank(f, v);
    hide Written, Printed, Standard, Precise, Digits, Sign, StandardSign, Fill, Padding, Trailing, Blank, Body, Repeat;
    if Pad(f) == '0' {
      WrittenAt(blank, Sign(f, v), Padding(f, v), Precise(f, v), 0);
      WrittenAt(Fill(f, v) + blank, Sign(f, v), 0, Precise(f, v), 0);
    } else {
      WrittenAt(blank + Padding(f, v), Sign(f, v), 0, Precise(f, v), 0);
      WrittenAt(blank, Sign(f, v), Fill(f, v), Precise(f, v), 0);
    }
  }

  lemma SignIsNoBlank(f: Spec, v: int)
    ensures |Sign(f, v)| > 0 ==> Sign(f, v)[0] != ' '
  {
  }

  lemma NumberEnds(f: Spec, v: int)
    ensures |Precise(f, v)| > 0 && Precise(f, v)[|Precise(f, v)| - 1] != ' '
  {
    var d := Digits(Abs(v));
    assert Precise(f, v)[|Precise(f, v)| - 1] == d[|d| - 1];
    hide Repeat;
    LastIsDigit(Abs(v));
  }

  lemma LastIsDigit(n: nat)
    ensures Digits(n)[|Digits(n)| - 1] != ' '
  {
  }

  /** A blank kept beside a sign: one byte too many ... */
  lemma LongerByOne(f: Spec, dot: bool, v: int)
    requires !Vanishes(f, dot, v) && f.space && Signed(f, v) && f.width >= 2 && Body(f, v) >= f.width
    ensures Printed(f, v) != Standard(f, dot, v)
  {
    PartLengths(f, v);
    PassesAgreeOnNumber(f, v);
    assert |Standard(f, dot, v)| == Body(f, v);
  }

  /** ... or a number that is not flush right. */
  lemma NotFlushRight(f: Spec, dot: bool, v: int)
    requires !Vanishes(f, dot, v) && f.space && Signed(f, v) && f.width >= 2 && !f.left && Body(f, v) < f.width
    ensures Printed(f, v) != Standard(f, dot, v)
  {
    PrintedIs(f, v);
    StandardIs(f, dot, v);
    NumberEnds(f, v);
    OneBlankBehind(f, v);
    var z, m, n := Padding(f, v), Fill(f, v), Precise(f, v);
    hide Precise, Printed, Standard, Written, Body, Digits, Repeat, StandardSign, Sign, Fill, Padding, Trailing,
         Vanishes;
    WrittenEnds(Blank(f, v) + z, Sign(f, v), 0, n, 1);
    WrittenEnds(Blank(f, v), Sign(f, v), z, n, 1);
    WrittenEnds(0, Sign(f, v), m, n, 0);
    WrittenEnds(m + 0, Sign(f, v), 0, n, 0);
  }

  lemma OneBlankBehind(f: Spec, v: int)
    requires f.space && Signed(f, v) && f.width >= 2 && !f.left && Body(f, v) < f.width
    ensures Max(Trailing(f, v), 0) == 1
  {
    hide Body;
  }

  lemma WrittenEnds(lead: nat, sign: string, zeros: nat, number: string, trail: nat)
    requires |number| > 0
    ensures var w := Written(lead, sign, zeros, number, trail);
            |w| > 0 && w[|w| - 1] == if trail > 0 then ' ' else number[|number| - 1]
  {
    WrittenAt(lead, sign, zeros, number, trail);
    hide Written;
  }

  /** The formatter writes what the standard says exactly where it complies, for all numbers and specifications. */
  lemma CompliesExactly(f: Spec, dot: bool, v: int)
    requires f.precs > 0 ==> dot
    ensures Printed(f, v) == Standard(f, dot, v) <==> Complies(f, dot, v)
  {
    hide Printed, Standard, Digits, Body, Repeat, Vanishes, PadsAlike, Blank;
    if Complies(f, dot, v) {
      SameParts(f, dot, v);
    } else if Vanishes(f, dot, v) {
      ZeroShows(f, dot, v);
    } else if f.space && Signed(f, v) && f.width > 1 {
      if Body(f, v) >= f.width {
        LongerByOne(f, dot, v);
      } else {
        NotFlushRight(f, dot, v);
      }
    } else {
      PaddingShows(f, dot, v);
    }
  }
}
