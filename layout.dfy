/**
 * The two line-layout stages of the formatter: `convertNewlines`, which turns
 * every line feed into a `<br>` tag, and `preserveLeadingSpaces`, which turns
 * the white space at the start of each line into non-breaking spaces.
 */
module Layout {
  import opened Text
  import opened Scan

  /** Every occurrence of the character `c` replaced by `rep`, everything else kept in order. */
  function SubstChar(s: string, c: char, rep: string): (r: string)
    ensures c !in rep ==> c !in r
    ensures c !in s ==> r == s
    ensures |r| >= |s| || |rep| == 0
    decreases |s|
  {
    if s == [] then []
    else (if s[0] == c then rep else [s[0]]) + SubstChar(s[1..], c, rep)
  }

  lemma {:induction false} SubstCharConcat(a: string, b: string, c: char, rep: string)
    ensures SubstChar(a + b, c, rep) == SubstChar(a, c, rep) + SubstChar(b, c, rep)
    decreases |a|
  {
    if a == [] {
      assert a + b == b;
    } else {
      SubstCharConcat(a[1..], b, c, rep);
      SubstConcatStep(a, b, c, rep);
    }
  }

  lemma SubstConcatStep(a: string, b: string, c: char, rep: string)
    requires a != []
    requires SubstChar(a[1..] + b, c, rep) == SubstChar(a[1..], c, rep) + SubstChar(b, c, rep)
    ensures SubstChar(a + b, c, rep) == SubstChar(a, c, rep) + SubstChar(b, c, rep)
  {
    assert (a + b)[0] == a[0] && (a + b)[1..] == a[1..] + b;
    var head := if a[0] == c then rep else [a[0]];
    AppendAssoc(head, SubstChar(a[1..], c, rep), SubstChar(b, c, rep));
  }

  /** `replace(/c/g, rep)` for a one-character pattern is the character substitution. */
  lemma {:induction false} ReplaceCharIsSubst(s: string, i: nat, c: char, rep: string)
    requires i <= |s|
    ensures ReplaceFrom(s, i, Literal([c]), Const(rep)) == SubstChar(s[i..], c, rep)
    decreases |s| - i
  {
    if i < |s| {
      ReplaceCharIsSubst(s, i + 1, c, rep);
      assert s[i..][1..] == s[i + 1..];
      assert At(s, i, [c]) <==> s[i] == c by {
        assert s[i..i + 1] == [s[i]];
      }
      if s[i] == c {
        assert s[i..i + 1] == [c];
      }
    }
  }

  /** `convertNewlines`: `text.replace(/\n/g, '<br>')`. */
  function ConvertNewlines(s: string): (r: string)
    ensures '\n' !in r
  {
    ReplaceCharIsSubst(s, 0, '\n', Br);
    ReplaceLiteral(s, "\n", Br)
  }

  /** The stage is the same as splitting into lines and joining them with `<br>`. */
  lemma ConvertNewlinesJoinsLines(s: string)
    ensures ConvertNewlines(s) == Join(Split(s, '\n'), Br)
  {
    ReplaceCharIsSubst(s, 0, '\n', Br);
    SubstIsJoinSplit(s, '\n', Br);
  }

  lemma {:induction false} SubstIsJoinSplit(s: string, c: char, rep: string)
    ensures SubstChar(s, c, rep) == Join(Split(s, c), rep)
    decreases |s|
  {
    if s != [] {
      SubstIsJoinSplit(s[1..], c, rep);
      if s[0] == c {
        SubstSepStep(s, c, rep);
      } else {
        SubstKeepStep(s, c, rep);
      }
    }
  }

  /** The separator closes the first part, and `rep` takes its place. */
  lemma SubstSepStep(s: string, c: char, rep: string)
    requires s != [] && s[0] == c && SubstChar(s[1..], c, rep) == Join(Split(s[1..], c), rep)
    ensures SubstChar(s, c, rep) == Join(Split(s, c), rep)
  {
    var rest := Split(s[1..], c);
    assert Split(s, c) == [[]] + rest;
    assert ([[]] + rest)[1..] == rest;
    assert Join([[]] + rest, rep) == [] + rep + Join(rest, rep);
  }

  /** Any other character is the first character of the first part. */
  lemma SubstKeepStep(s: string, c: char, rep: string)
    requires s != [] && s[0] != c && SubstChar(s[1..], c, rep) == Join(Split(s[1..], c), rep)
    ensures SubstChar(s, c, rep) == Join(Split(s, c), rep)
  {
    var rest := Split(s[1..], c);
    assert Split(s, c) == [[s[0]] + rest[0]] + rest[1..];
    JoinCons(s[0], rest[0], rest[1..], rep);
    assert [rest[0]] + rest[1..] == rest;
  }

  /** A text without line feeds is left as it is, and the stage splits over concatenation. */
  lemma ConvertNewlinesLaws(a: string, b: string)
    ensures '\n' !in a ==> ConvertNewlines(a) == a
    ensures ConvertNewlines(a + b) == ConvertNewlines(a) + ConvertNewlines(b)
  {
    ReplaceCharIsSubst(a, 0, '\n', Br);
    ReplaceCharIsSubst(b, 0, '\n', Br);
    ReplaceCharIsSubst(a + b, 0, '\n', Br);
    assert a[0..] == a && b[0..] == b && (a + b)[0..] == a + b;
    SubstCharConcat(a, b, '\n', Br);
  }

  /** What one white-space character of a leading run becomes: a space one `&nbsp;`, a tab four. */
  function ExpandChar(c: char): string
  {
    if c == ' ' then Nbsp else if c == '\t' then Nbsp + Nbsp + Nbsp + Nbsp else [c]
  }

  /** The callback of `preserveLeadingSpaces`: spaces first, then tabs. */
  function ExpandRun(m: string): string
  {
    SubstChar(SubstChar(m, ' ', Nbsp), '\t', Nbsp + Nbsp + Nbsp + Nbsp)
  }

  /** `^[\s\t]+` under the `m` flag: at a line start, the longest run of white space. */
  function LeadingRun(s: string, i: nat): Option<Match>
  {
    if i <= |s| && (i == 0 || (i - 1 < |s| && IsLineTerminator(s[i - 1])))
       && RunLength(s, i, IsSpace) > 0
    then Some(Match(RunLength(s, i, IsSpace), []))
    else None
  }

  /** `preserveLeadingSpaces`. */
  function PreserveLeadingSpaces(s: string): string
  {
    ReplaceAll(s, LeadingRun, ExpandRender())
  }

  /**
   * Reference reading, one character at a time: `lead` says that the next
   * white-space character belongs to a run that started at a line start.
   */
  function Leading(s: string, lead: bool): (r: string)
    decreases |s|
  {
    if s == [] then []
    else if lead && IsSpace(s[0]) then ExpandChar(s[0]) + Leading(s[1..], true)
    else [s[0]] + Leading(s[1..], IsLineTerminator(s[0]))
  }

  lemma {:induction false} ExpandRunChar(c: char, rest: string)
    ensures ExpandRun([c] + rest) == ExpandChar(c) + ExpandRun(rest)
  {
    var nb4 := Nbsp + Nbsp + Nbsp + Nbsp;
    var first := if c == ' ' then Nbsp else [c];
    SubstFirst(c, rest, ' ', Nbsp);
    SubstCharConcat(first, SubstChar(rest, ' ', Nbsp), '\t', nb4);
    ExpandFirst(c);
  }

  /** The first character is substituted, then the rest. */
  lemma SubstFirst(c: char, rest: string, x: char, rep: string)
    ensures SubstChar([c] + rest, x, rep) == (if c == x then rep else [c]) + SubstChar(rest, x, rep)
  {
    assert ([c] + rest)[0] == c && ([c] + rest)[1..] == rest;
  }

  /** Both substitutions applied to one character give its expansion. */
  lemma ExpandFirst(c: char)
    ensures SubstChar(if c == ' ' then Nbsp else [c], '\t', Nbsp + Nbsp + Nbsp + Nbsp) == ExpandChar(c)
  {
    if c != ' ' {
      SubstFirst(c, [], '\t', Nbsp + Nbsp + Nbsp + Nbsp);
      assert [c] + [] == [c];
    }
  }

  /** A white-space run at a line start is expanded as a whole, then the reading goes on. */
  lemma {:induction false} LeadingRunExpands(run: string, t: string)
    requires forall k :: 0 <= k < |run| ==> IsSpace(run[k])
    ensures Leading(run + t, true) == ExpandRun(run) + Leading(t, true)
    decreases |run|
  {
    if run == [] {
      assert run + t == t;
      assert ExpandRun(run) == [];
    } else {
      LeadingRunExpands(run[1..], t);
      RunExpandStep(run, t);
    }
  }

  lemma RunExpandStep(run: string, t: string)
    requires run != [] && IsSpace(run[0])
    requires Leading(run[1..] + t, true) == ExpandRun(run[1..]) + Leading(t, true)
    ensures Leading(run + t, true) == ExpandRun(run) + Leading(t, true)
  {
    LeadingHead(run, t);
    ExpandRunHead(run);
    AppendAssoc(ExpandChar(run[0]), ExpandRun(run[1..]), Leading(t, true));
  }

  lemma LeadingHead(run: string, t: string)
    requires run != [] && IsSpace(run[0])
    ensures Leading(run + t, true) == ExpandChar(run[0]) + Leading(run[1..] + t, true)
  {
    assert run + t == [run[0]] + (run[1..] + t);
    LeadingSpaceStep(run[0], run[1..] + t);
  }

  lemma ExpandRunHead(run: string)
    requires run != []
    ensures ExpandRun(run) == ExpandChar(run[0]) + ExpandRun(run[1..])
  {
    assert run == [run[0]] + run[1..];
    ExpandRunChar(run[0], run[1..]);
  }

  lemma LeadingSpaceStep(c: char, u: string)
    requires IsSpace(c)
    ensures Leading([c] + u, true) == ExpandChar(c) + Leading(u, true)
  {
    assert ([c] + u)[0] == c && ([c] + u)[1..] == u;
  }

  /** Before a character that is not white space, the flag makes no difference. */
  lemma LeadingFlagIrrelevant(s: string)
    requires s == [] || !IsSpace(s[0])
    ensures Leading(s, true) == Leading(s, false)
  {
  }

  /** The callback of `preserveLeadingSpaces` as a replacement. */
  function ExpandRender(): Render
  {
    (m: string, _: seq<string>) => ExpandRun(m)
  }

  /** The replacement scan computes the reference reading. */
  lemma {:induction false} PreserveFrom(s: string, i: nat)
    requires i <= |s|
    ensures ReplaceFrom(s, i, LeadingRun, ExpandRender()) == Leading(s[i..], LineStart(s, i))
    decreases |s| - i
  {
    if i < |s| {
      var n := RunLength(s, i, IsSpace);
      if LineStart(s, i) && n > 0 {
        PreserveFrom(s, i + n);
        PreserveRunStep(s, i, n);
      } else {
        PreserveFrom(s, i + 1);
        PreserveCopyStep(s, i);
      }
    }
  }

  lemma PreserveRunStep(s: string, i: nat, n: nat)
    requires i < |s| && LineStart(s, i) && n == RunLength(s, i, IsSpace) && n > 0
    requires ReplaceFrom(s, i + n, LeadingRun, ExpandRender()) == Leading(s[i + n..], LineStart(s, i + n))
    ensures ReplaceFrom(s, i, LeadingRun, ExpandRender()) == Leading(s[i..], LineStart(s, i))
  {
    PreserveHit(s, i, n);
    LeadingAtRun(s, i, n);
  }

  /** At a line start that opens a white-space run, the scan expands the whole run. */
  lemma PreserveHit(s: string, i: nat, n: nat)
    requires i < |s| && LineStart(s, i) && n == RunLength(s, i, IsSpace) && n > 0
    ensures i + n <= |s|
    ensures ReplaceFrom(s, i, LeadingRun, ExpandRender()) == ExpandRun(s[i..i + n]) + ReplaceFrom(s, i + n, LeadingRun, ExpandRender())
  {
    LeadingRunAt(s, i, n);
    RenderIsExpand(s[i..i + n]);
    ReplaceHitAs(s, i, LeadingRun, ExpandRender(), n, [], ExpandRun(s[i..i + n]));
  }

  lemma LeadingRunAt(s: string, i: nat, n: nat)
    requires i < |s| && LineStart(s, i) && n == RunLength(s, i, IsSpace) && n > 0
    ensures LeadingRun(s, i) == Some(Match(n, []))
  {
  }

  lemma RenderIsExpand(m: string)
    ensures ExpandRender()(m, []) == ExpandRun(m)
  {
  }

  lemma LeadingAtRun(s: string, i: nat, n: nat)
    requires i < |s| && n == RunLength(s, i, IsSpace)
    ensures Leading(s[i..], true) == ExpandRun(s[i..i + n]) + Leading(s[i + n..], LineStart(s, i + n))
  {
    assert s[i..] == s[i..i + n] + s[i + n..];
    LeadingRunExpands(s[i..i + n], s[i + n..]);
    assert i + n < |s| ==> s[i + n..][0] == s[i + n];
    LeadingFlagIrrelevant(s[i + n..]);
  }

  lemma PreserveCopyStep(s: string, i: nat)
    requires i < |s| && !(LineStart(s, i) && RunLength(s, i, IsSpace) > 0)
    requires ReplaceFrom(s, i + 1, LeadingRun, ExpandRender()) == Leading(s[i + 1..], LineStart(s, i + 1))
    ensures ReplaceFrom(s, i, LeadingRun, ExpandRender()) == Leading(s[i..], LineStart(s, i))
  {
    assert LeadingRun(s, i) == None;
    assert s[i..][0] == s[i] && s[i..][1..] == s[i + 1..];
  }

  /** `preserveLeadingSpaces` is the reference reading started at a line start. */
  lemma PreserveIsLeading(s: string)
    ensures PreserveLeadingSpaces(s) == Leading(s, true)
  {
    PreserveFrom(s, 0);
    assert s[0..] == s;
  }

  /** Once the first character of a line that is not white space is reached, the rest of the line is kept. */
  lemma {:induction false} LeadingKeepsLineBody(s: string)
    requires forall k :: 0 <= k < |s| ==> !IsLineTerminator(s[k])
    requires s == [] || !IsSpace(s[0])
    ensures Leading(s, true) == s
    ensures Leading(s, false) == s
  {
    LeadingKeepsRest(s);
  }

  lemma {:induction false} LeadingKeepsRest(s: string)
    requires forall k :: 0 <= k < |s| ==> !IsLineTerminator(s[k])
    ensures Leading(s, false) == s
    decreases |s|
  {
    if s != [] {
      LeadingKeepsRest(s[1..]);
    }
  }

  /** Only spaces and tabs change: a text without them is left as it is. */
  lemma {:induction false} LeadingKeepsOthers(s: string, lead: bool)
    requires ' ' !in s && '\t' !in s
    ensures Leading(s, lead) == s
    decreases |s|
  {
    if s != [] {
      assert s[0] != ' ' && s[0] != '\t';
      LeadingKeepsOthers(s[1..], if lead && IsSpace(s[0]) then true else IsLineTerminator(s[0]));
    }
  }

  /** The reading works line by line: a line break resets the flag. */
  lemma {:induction false} LeadingConcatLine(a: string, b: string, lead: bool)
    requires a != [] && IsLineTerminator(a[|a| - 1])
    ensures Leading(a + b, lead) == Leading(a, lead) + Leading(b, true)
    decreases |a|
  {
    var next := if lead && IsSpace(a[0]) then true else IsLineTerminator(a[0]);
    if |a| == 1 {
      LineEndStep(a, b, lead);
    } else {
      assert a[1..][|a[1..]| - 1] == a[|a| - 1];
      LeadingConcatLine(a[1..], b, next);
      ConcatLineStep(a, b, lead);
    }
  }

  lemma LineEndStep(a: string, b: string, lead: bool)
    requires |a| == 1 && IsLineTerminator(a[0])
    ensures Leading(a + b, lead) == Leading(a, lead) + Leading(b, true)
  {
    BreakThen(a[0], b, lead);
    BreakThen(a[0], [], lead);
    assert a == [a[0]] + [];
    assert a + b == [a[0]] + b;
  }

  /** A line terminator is kept as it is, and a new line starts after it. */
  lemma BreakThen(c: char, b: string, lead: bool)
    requires IsLineTerminator(c)
    ensures Leading([c] + b, lead) == [c] + Leading(b, true)
  {
    assert ExpandChar(c) == [c];
    assert ([c] + b)[0] == c && ([c] + b)[1..] == b;
  }

  lemma ConcatLineStep(a: string, b: string, lead: bool)
    requires |a| > 1
    requires Leading(a[1..] + b, if lead && IsSpace(a[0]) then true else IsLineTerminator(a[0]))
             == Leading(a[1..], if lead && IsSpace(a[0]) then true else IsLineTerminator(a[0])) + Leading(b, true)
    ensures Leading(a + b, lead) == Leading(a, lead) + Leading(b, true)
  {
    assert (a + b)[0] == a[0] && (a + b)[1..] == a[1..] + b;
    var head := if lead && IsSpace(a[0]) then ExpandChar(a[0]) else [a[0]];
    var next := if lead && IsSpace(a[0]) then true else IsLineTerminator(a[0]);
    assert Leading(a, lead) == head + Leading(a[1..], next);
    assert Leading(a + b, lead) == head + Leading(a[1..] + b, next);
    AppendAssoc(head, Leading(a[1..], next), Leading(b, true));
  }
}
