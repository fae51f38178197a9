/** make_glob_pattern (jupiter/csvtmpl_format.c, 756-931): a pattern for the names a format can produce. */
module Glob {
  import opened Format

  /** The pattern; conversions next to each other share one star. */
  function Pattern(items: seq<Item>, recurr: bool): string {
    if items == [] then []
    else
      match items[0]
      case Plain(ch) => [ch] + Pattern(items[1..], false)
      case Percent => "%" + Pattern(items[1..], false)
      case Number(_, _) => (if recurr then "" else "*") + Pattern(items[1..], true)
      case Text(_) => (if recurr then "" else "*") + Pattern(items[1..], true)
  }

  /** Glob matching without brackets, question marks and escapes: a star stands for any text. */
  ghost predicate Globs(p: string, s: string)
    decreases |p|
  {
    if p == [] then s == []
    else if p[0] == '*' then exists k: nat :: k <= |s| && Globs(p[1..], s[k..])
    else s != [] && s[0] == p[0] && Globs(p[1..], s[1..])
  }

  predicate IsMeta(ch: char) { ch == '*' || ch == '?' || ch == '[' || ch == '\\' }

  lemma StarAbsorbs(p: string, front: string, s: string)
    requires Globs(p, s)
    ensures Globs("*" + p, front + s)
  {
    assert ("*" + p)[1..] == p;
    var k: nat := |front|;
    assert (front + s)[k..] == s;
  }

  /** A pattern after a star takes any further text in front. */
  lemma StarTakesMore(p: string, front: string, s: string)
    requires Globs("*" + p, s)
    ensures Globs("*" + p, front + s)
  {
    assert ("*" + p)[1..] == p;
    var k: nat :| k <= |s| && Globs(("*" + p)[1..], s[k..]);
    var k' := |front| + k;
    assert (front + s)[k'..] == s[k..];
  }

  /** Behind a star the rest of a format is matched with or without one of its own. */
  lemma {:induction false} CoversOutput(items: seq<Item>, env: Env)
    requires forall i | 0 <= i < |items| && items[i].Plain? :: !IsMeta(items[i].ch)
    ensures Globs(Pattern(items, false), Output(items, env))
    ensures Globs("*" + Pattern(items, true), Output(items, env))
  {
    hide Out, Globs;
    if items == [] {
      EmptyGlobs();
    } else {
      var rest := items[1..];
      assert forall i | 0 <= i < |rest| :: rest[i] == items[i + 1];
      CoversOutput(rest, env);
      var out, s := Out(items[0], env), Output(rest, env);
      if items[0].Number? || items[0].Text? {
        StarTakesMore(Pattern(rest, true), out, s);
        assert Pattern(items, true) == Pattern(rest, true);
      } else {
        OneCharacter(items[0], env, Pattern(rest, false), s);
        StarAbsorbs(Pattern(items, false), [], out + s);
        assert [] + (out + s) == out + s;
      }
    }
  }

  lemma EmptyGlobs()
    ensures Globs([], []) && Globs("*" + [], [])
  {
    StarAbsorbs([], [], []);
  }

  lemma OneCharacter(item: Item, env: Env, p: string, s: string)
    requires item.Percent? || (item.Plain? && !IsMeta(item.ch))
    requires Globs(p, s)
    ensures Globs([if item.Percent? then '%' else item.ch] + p, Out(item, env) + s)
  {
    var ch := if item.Percent? then '%' else item.ch;
    assert Out(item, env) == [ch];
    assert ([ch] + p)[1..] == p && ([ch] + s)[1..] == s;
  }

  /** Whether a directive is a conversion, and the character it puts into the pattern. */
  function IsConversion(item: Item): bool { item.Number? || item.Text? }

  function PatternChar(item: Item): char {
    match item
    case Plain(ch) => ch
    case Percent => '%'
    case Number(_, _) => '*'
    case Text(_) => '*'
  }

  /** s is the characters of the format in their order, with any text for each conversion. */
  ghost predicate IsInstance(items: seq<Item>, s: string)
    decreases |items|
  {
    if items == [] then s == []
    else
      match items[0]
      case Plain(ch) => s != [] && s[0] == ch && IsInstance(items[1..], s[1..])
      case Percent => s != [] && s[0] == '%' && IsInstance(items[1..], s[1..])
      case Number(_, _) => exists k: nat :: k <= |s| && IsInstance(items[1..], s[k..])
      case Text(_) => exists k: nat :: k <= |s| && IsInstance(items[1..], s[k..])
  }

  ghost predicate EndsInInstance(items: seq<Item>, s: string) {
    exists k: nat :: k <= |s| && IsInstance(items, s[k..])
  }

  lemma StarGlobs(p: string, s: string)
    ensures Globs("*" + p, s) <==> exists k: nat :: k <= |s| && Globs(p, s[k..])
  {
    assert ("*" + p)[1..] == p;
  }

  lemma CharGlobs(ch: char, p: string, s: string)
    requires ch != '*'
    ensures Globs([ch] + p, s) <==> s != [] && s[0] == ch && Globs(p, s[1..])
  {
    assert ([ch] + p)[1..] == p;
  }

  /** The shorter of two tails is a tail of the longer one. */
  lemma TailOfTail(s: string, j: nat, k: nat)
    requires j + k <= |s|
    ensures s[j..][k..] == s[j + k..]
  {
  }

  lemma StarBefore(items: seq<Item>, s: string)
    requires items != [] && IsConversion(items[0])
    ensures EndsInInstance(items, s) <==> EndsInInstance(items[1..], s)
  {
    if EndsInInstance(items, s) {
      var j: nat :| j <= |s| && IsInstance(items, s[j..]);
      var k: nat :| k <= |s[j..]| && IsInstance(items[1..], s[j..][k..]);
      TailOfTail(s, j, k);
      assert IsInstance(items[1..], s[j + k..]);
    }
    if EndsInInstance(items[1..], s) {
      assert s[0..] == s;
      assert IsInstance(items, s[0..]);
    }
  }

  /** The pattern accepts no more than that: it accepts exactly the instances of the format. */
  lemma {:induction false} GlobsExactly(items: seq<Item>, s: string)
    requires forall i | 0 <= i < |items| && items[i].Plain? :: !IsMeta(items[i].ch)
    ensures Globs(Pattern(items, false), s) <==> IsInstance(items, s)
    ensures Globs("*" + Pattern(items, true), s) <==> EndsInInstance(items, s)
    decreases |items|
  {
    hide Globs;
    if items == [] {
      NothingGlobs(s);
    } else {
      var rest := items[1..];
      assert forall i | 0 <= i < |rest| :: rest[i] == items[i + 1];
      forall k: nat | k <= |s|
        ensures Globs(Pattern(rest, false), s[k..]) <==> IsInstance(rest, s[k..])
      {
        GlobsExactly(rest, s[k..]);
      }
      GlobsExactly(rest, s);
      if IsConversion(items[0]) {
        assert Pattern(items, false) == "*" + Pattern(rest, true) && "" + Pattern(rest, true) == Pattern(rest, true);
        assert Pattern(items, true) == Pattern(rest, true);
        assert IsInstance(items, s) <==> EndsInInstance(rest, s);
        StarBefore(items, s);
      } else {
        LiteralExactly(items, s);
      }
    }
  }

  lemma LiteralExactly(items: seq<Item>, s: string)
    requires items != [] && !IsConversion(items[0]) && PatternChar(items[0]) != '*'
    requires forall k: nat | k <= |s| :: Globs(Pattern(items[1..], false), s[k..]) <==> IsInstance(items[1..], s[k..])
    ensures Globs(Pattern(items, false), s) <==> IsInstance(items, s)
    ensures Globs("*" + Pattern(items, true), s) <==> EndsInInstance(items, s)
  {
    var ch, p := PatternChar(items[0]), Pattern(items[1..], false);
    assert Pattern(items, false) == Pattern(items, true) == [ch] + p;
    hide Globs, Pattern;
    StarGlobs([ch] + p, s);
    assert s[0..] == s;
    forall k: nat | k <= |s|
      ensures Globs([ch] + p, s[k..]) <==> IsInstance(items, s[k..])
    {
      CharGlobs(ch, p, s[k..]);
      if k < |s| {
        assert s[k..][1..] == s[k + 1..];
      }
    }
  }

  lemma NothingGlobs(s: string)
    ensures Globs([], s) <==> s == []
    ensures Globs("*" + [], s) <==> EndsInInstance([], s)
  {
    StarGlobs([], s);
    assert s[|s|..] == [];
    if Globs("*" + [], s) || EndsInInstance([], s) {
      assert IsInstance([], s[|s|..]) && Globs([], s[|s|..]);
    }
  }

  lemma PatternStep(items: seq<Item>, recurr: bool)
    requires items != []
    ensures Pattern(items, recurr) ==
            (if IsConversion(items[0]) && recurr then [] else [PatternChar(items[0])])
                + Pattern(items[1..], IsConversion(items[0]))
  {
  }

  /** No star follows another one. */
  lemma {:induction false} StarsApart(items: seq<Item>, recurr: bool, i: int)
    requires forall k | 0 <= k < |items| && items[k].Plain? :: !IsMeta(items[k].ch)
    ensures var p := Pattern(items, recurr);
            && (recurr && p != [] ==> p[0] != '*')
            && (0 <= i < |p| - 1 ==> p[i] != '*' || p[i + 1] != '*')
  {
    if items != [] {
      assert forall k | 0 <= k < |items[1..]| :: items[1..][k] == items[k + 1];
      PatternStep(items, recurr);
      var r := IsConversion(items[0]);
      StarsApart(items[1..], r, if r && recurr then i else i - 1);
    }
  }

  /** The counting pass. */
  method PatternSize(items: seq<Item>) returns (sz: nat)
    ensures sz == |Pattern(items, false)| + 1
  {
    sz := 0;
    var recurr := false;
    for i := 0 to |items|
      invariant sz + |Pattern(items[i..], recurr)| == |Pattern(items, false)|
    {
      assert items[i..][1..] == items[i + 1..];
      match items[i] {
        case Plain(ch) =>
          recurr := false;
          sz := sz + 1;
        case Percent =>
          recurr := false;
          sz := sz + 1;
        case Number(_, _) =>
          if !recurr {
            sz := sz + 1;
          }
          recurr := true;
        case Text(_) =>
          if !recurr {
            sz := sz + 1;
          }
          recurr := true;
      }
    }
    sz := sz + 1;
  }

  /** Both passes: the bytes written are exactly the bytes counted. */
  method MakePattern(items: seq<Item>) returns (buf: array<char>, sz: nat)
    ensures fresh(buf) && buf.Length == sz == |Pattern(items, false)| + 1
    ensures buf[..sz - 1] == Pattern(items, false) && buf[sz - 1] == '\0'
  {
    hide Pattern;
    var room := PatternSize(items);
    buf := new char[room];
    sz := 0;
    var recurr := false;
    for i := 0 to |items|
      invariant sz + |Pattern(items[i..], recurr)| == |Pattern(items, false)|
      invariant buf[..sz] + Pattern(items[i..], recurr) == Pattern(items, false)
    {
      assert items[i..][1..] == items[i + 1..];
      PatternStep(items[i..], recurr);
      ghost var before := buf[..sz];
      if IsConversion(items[i]) && recurr {
        // the star is already there
      } else {
        buf[sz] := PatternChar(items[i]);
        sz := sz + 1;
        assert buf[..sz] == before + [PatternChar(items[i])];
      }
      recurr := IsConversion(items[i]);
    }
    NoPattern(recurr);
    assert items[|items|..] == [];
    buf[sz] := '\0';
    sz := sz + 1;
  }

  lemma NoPattern(recurr: bool)
    ensures Pattern([], recurr) == []
  {
  }
}
