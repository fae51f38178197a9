/**
 Exactly what the matcher takes for a number and for a text (jupiter/csvtmpl_format.c, 1118-1290), and
 what it makes of it.
 */
module FormatLanguage {
  import opened Layout
  import opened Format
  import opened FormatMatch

  predicate NameStart(ch: char) { 'a' <= ch <= 'z' || 'A' <= ch <= 'Z' }

  predicate NamePart(ch: char) { NameStart(ch) || '0' <= ch <= '9' }

  /** Blanks, a letter with letters and digits behind it, and something else. */
  ghost predicate IsTextSplit(s: string, n: nat, t: string, rest: string) {
    && s == Repeat(' ', n) + (t + rest)
    && t != [] && NameStart(t[0]) && (forall i | 0 <= i < |t| :: NamePart(t[i]))
    && (rest == [] || !NamePart(rest[0]))
  }

  lemma {:induction false} BlanksSplit(s: string)
    ensures s == Repeat(' ', |s| - |SkipBlanks(s)|) + SkipBlanks(s)
  {
    if s != [] && s[0] == ' ' {
      BlanksSplit(s[1..]);
      var n := |s| - |SkipBlanks(s)|;
      assert Repeat(' ', n) == [' '] + Repeat(' ', n - 1);
      assert s == [' '] + s[1..];
      assert [' '] + (Repeat(' ', n - 1) + SkipBlanks(s)) == ([' '] + Repeat(' ', n - 1)) + SkipBlanks(s);
    }
  }

  lemma {:induction false} WordIsMaximal(s: string)
    ensures forall i | 0 <= i < WordLength(s) :: IsWordChar(s[i])
    ensures WordLength(s) < |s| ==> !IsWordChar(s[WordLength(s)])
  {
    if s != [] && IsWordChar(s[0]) {
      WordIsMaximal(s[1..]);
      assert forall i | 0 < i < WordLength(s) :: s[i] == s[1..][i - 1];
    }
  }

  lemma TextNeedsSplit(s: string, t: string, rest: string)
    requires ScanText(s) == Some((t, rest))
    ensures IsTextSplit(s, |s| - |SkipBlanks(s)|, t, rest)
  {
    var u := SkipBlanks(s);
    BlanksSplit(s);
    WordIsMaximal(u);
    TakeDrop(u, WordLength(u));
    hide SkipBlanks, WordLength, Repeat;
  }

  lemma TakeDrop(u: string, n: nat)
    requires n <= |u|
    ensures u == u[..n] + u[n..]
  {
  }

  lemma TextIsRead(s: string, n: nat, t: string, rest: string)
    requires IsTextSplit(s, n, t, rest)
    ensures ScanText(s) == Some((t, rest))
  {
    hide ScanText, Repeat;
    ReadsText(t, rest, n);
  }

  /** The matcher reads text t and goes on with rest exactly if s is made up like that. */
  lemma TextExactly(s: string, t: string, rest: string)
    ensures ScanText(s) == Some((t, rest)) <==> exists n: nat :: IsTextSplit(s, n, t, rest)
  {
    hide ScanText, SkipBlanks, IsTextSplit;
    if ScanText(s) == Some((t, rest)) {
      TextNeedsSplit(s, t, rest);
      var n: nat := |s| - |SkipBlanks(s)|;
      assert IsTextSplit(s, n, t, rest);
    }
    if n: nat :| IsTextSplit(s, n, t, rest) {
      TextIsRead(s, n, t, rest);
    }
  }

  /** How many signs a string holds. */
  function Signs(s: string): nat {
    if s == [] then 0 else (if s[0] == '+' || s[0] == '-' then 1 else 0) + Signs(s[1..])
  }

  /** Blanks with at most one sign among them, digits, and something else. */
  ghost predicate IsNumberSplit(s: string, lead: string, digits: string, rest: string) {
    && s == lead + (digits + rest)
    && (forall i | 0 <= i < |lead| :: lead[i] == ' ' || lead[i] == '+' || lead[i] == '-') && Signs(lead) <= 1
    && digits != [] && (forall i | 0 <= i < |digits| :: '0' <= digits[i] <= '9')
    && (rest == [] || !('0' <= rest[0] <= '9'))
  }

  lemma {:induction false} LeadIsSkipped(lead: string, d: string, signed: bool)
    requires forall i | 0 <= i < |lead| :: lead[i] == ' ' || lead[i] == '+' || lead[i] == '-'
    requires Signs(lead) + (if signed then 1 else 0) <= 1 && d != [] && IsDigit(d[0])
    ensures SkipSign(lead + d, signed) == Some(d)
  {
    if lead == [] {
      assert lead + d == d;
    } else {
      assert (lead + d)[1..] == lead[1..] + d;
      LeadIsSkipped(lead[1..], d, signed || lead[0] != ' ');
    }
  }

  lemma {:induction false} SkippedIsLead(s: string, signed: bool)
    requires SkipSign(s, signed).Some?
    ensures var n := |s| - |SkipSign(s, signed).value|;
            && s[n..] == SkipSign(s, signed).value && Signs(s[..n]) + (if signed then 1 else 0) <= 1
            && forall i | 0 <= i < n :: s[i] == ' ' || s[i] == '+' || s[i] == '-'
  {
    if !IsDigit(s[0]) {
      var signed' := signed || s[0] != ' ';
      SkippedIsLead(s[1..], signed');
      var n := |s| - |SkipSign(s, signed).value|;
      assert s[..n][1..] == s[1..][..n - 1];
      assert forall i | 0 < i < n :: s[i] == s[1..][i - 1];
    }
  }

  lemma {:induction false} DigitsSplit(s: string)
    ensures var n := |s| - |SkipDigits(s)|;
            && s[n..] == SkipDigits(s) && (forall i | 0 <= i < n :: IsDigit(s[i]))
            && (SkipDigits(s) == [] || !IsDigit(SkipDigits(s)[0]))
  {
    if s != [] && IsDigit(s[0]) {
      DigitsSplit(s[1..]);
      var n := |s| - |SkipDigits(s)|;
      assert forall i | 0 < i < n :: s[i] == s[1..][i - 1];
    }
  }

  /** A string made up like that is read as a number: its value, or INT_MAX with the overflow on record. */
  lemma NumberIsRead(s: string, lead: string, digits: string, rest: string)
    requires IsNumberSplit(s, lead, digits, rest)
    ensures ScanInt(s) == Some((if WrapsBelow(0, digits) then INT_MAX else ToInt(ValueOf(0, digits)),
                                WrapsBelow(0, digits), rest))
  {
    var d := digits + rest;
    assert d[0] == digits[0] && d[1..] == digits[1..] + rest;
    LeadIsSkipped(lead, d, false);
    hide SkipSign, Accumulate, ToInt, WrapsBelow;
    FirstDigit(digits);
    WrapsLater(0, digits);
    SmallStays(DigitValue(digits[0]));
    OverflowExactly(DigitValue(digits[0]), digits[1..], rest);
  }

  lemma SmallStays(v: int)
    requires 0 <= v <= INT_MAX
    ensures ToInt(v) == v
  {
  }

  /** And nothing else is. */
  lemma NumberNeedsSplit(s: string) returns (lead: string, digits: string, rest: string)
    requires ScanInt(s).Some?
    ensures IsNumberSplit(s, lead, digits, rest)
  {
    var d := SkipSign(s, false).value;
    SkippedIsLead(s, false);
    DigitsSplit(d);
    var n, m := |s| - |d|, |d| - |SkipDigits(d)|;
    lead, digits, rest := s[..n], d[..m], d[m..];
    hide SkipSign;
    assert digits + rest == d;
  }
}
