/**
 * The line rules of `convertMarkdown` applied to whole lines: bullet items, numbered
 * items and headings, one line at a time and several lines in a row.  After
 * `convertNewlines` the lines of the text are separated by `<br>`, and each list rule
 * consumes the `<br>` that ends its item.
 */
module LineRules {
  import opened Text
  import opened Scan
  import opened Markdown

  // ------------------------------------------------------------------ where a line stops

  /** `LineEnd` runs over quiet characters and stops at the first line end. */
  lemma {:induction false} LineEndStops(s: string, k: nat, e: nat)
    requires k <= e <= |s|
    requires forall j :: k <= j < e ==> InLine(s, j)
    requires e == |s| || At(s, e, Br) || IsLineTerminator(s[e])
    ensures LineEnd(s, k) == e
    decreases e - k
  {
    if k < e {
      assert InLine(s, k);
      LineEndStops(s, k + 1, e);
    }
  }

  /** No `<br>` starts inside item text, not even one that runs into the `<br>` after it. */
  lemma BreakNotInside(mk: string, x: string, rest: string, j: nat)
    requires ItemText(x) && |mk| <= j < |mk| + |x|
    ensures !At(mk + x + Br + rest, j, Br)
  {
    var s := mk + x + Br + rest;
    var e := |mk| + |x|;
    if j + 4 <= e {
      assert s[j..j + 4] == x[j - |mk|..j - |mk| + 4];
      assert !Occurs(x, Br, j - |mk|);
    } else {
      assert s[j..j + 4][e - j] == s[e] == '<';
      assert Br[e - j] != '<';
    }
  }

  /** Item text followed by a `<br>`: the item stops right before it. */
  lemma LineEndAtBreak(mk: string, x: string, rest: string)
    requires ItemText(x)
    ensures LineEnd(mk + x + Br + rest, |mk|) == |mk| + |x|
    ensures At(mk + x + Br + rest, |mk| + |x|, Br)
  {
    var s := mk + x + Br + rest;
    var e := |mk| + |x|;
    forall j | |mk| <= j < e ensures InLine(s, j) {
      assert s[j] == x[j - |mk|];
      BreakNotInside(mk, x, rest, j);
    }
    assert s[e..e + 4] == Br;
    LineEndStops(s, |mk|, e);
  }

  /** The text of a line ended by `<br>`: where the line ends, the `<br>` it takes, and the text. */
  lemma LineAtBreak(mk: string, x: string, rest: string, s: string)
    requires ItemText(x) && s == mk + x + Br + rest
    ensures LineEnd(s, |mk|) == |mk| + |x| && EndLength(s, |mk| + |x|) == 4
    ensures s[|mk|..|mk| + |x|] == x
  {
    LineEndAtBreak(mk, x, rest);
    AppendAssoc(mk + x, Br, rest);
    MiddleOf(mk, x, Br + rest, s);
  }

  // ------------------------------------------------------------------ the indent count

  /** A line with no `&nbsp;` in its text has margin zero. */
  lemma NoNbspCount(m: string)
    requires !Contains(m, Nbsp)
    ensures NbspCount(m) == 0
  {
    forall j | 0 <= j < |m| ensures !Hit(m, j, Literal(Nbsp)(m, j)) {
      assert !Occurs(m, Nbsp, j);
    }
    SeparatorsNoHit(m, 0, Literal(Nbsp));
  }

  /** A marker without `&`, item text, and possibly the `<br>` after it hold no `&nbsp;`. */
  lemma LineLacksNbsp(mk: string, x: string, tail: string)
    requires ItemText(x) && (forall k :: 0 <= k < |mk| ==> mk[k] != '&')
    requires tail == Br || tail == []
    ensures !Contains(mk + x + tail, Nbsp)
  {
    var s := mk + x + tail;
    forall k: nat | k <= |s| ensures !Occurs(s, Nbsp, k) {
      if k + 6 <= |s| {
        if k < |mk| {
          assert s[k..k + 6][0] == s[k] == mk[k];
        } else if k + 6 <= |mk| + |x| {
          assert s[k..k + 6] == x[k - |mk|..k - |mk| + 6];
          assert !Occurs(x, Nbsp, k - |mk|);
        } else {
          assert s[k..k + 6][5] == s[k + 5] == tail[k + 5 - |mk| - |x|];
        }
      }
    }
  }

  lemma ListedOne(e: string, open: string, close: string)
    ensures Listed([e], open, close) == open + e + close
  {
    assert [e][1..] == [];
    assert open + e + close + [] == open + e + close;
  }

  /** A list of items renders as its first item's list followed by the lists of the rest. */
  lemma ListedPrepend(e: string, es: seq<string>, open: string, close: string)
    ensures Listed([e] + es, open, close) == Listed([e], open, close) + Listed(es, open, close)
  {
    assert ([e] + es)[0] == e && ([e] + es)[1..] == es;
    ListedOne(e, open, close);
  }

  // ------------------------------------------------------------------ items after a tag

  /** Where an item may start: at the beginning of the text or right after a tag's `>`. */
  predicate AfterTag(pre: string)
  {
    pre == [] || pre[|pre| - 1] == '>'
  }

  predicate ItemTexts(xs: seq<string>)
  {
    forall k :: 0 <= k < |xs| ==> ItemText(xs[k])
  }

  /** A character other than `&` starts no run of `&nbsp;`. */
  lemma NoIndentAt(s: string, i: nat)
    requires i < |s| && s[i] != '&'
    ensures NbspWidth(s, i) == 0
  {
    if i + 6 <= |s| { assert s[i..i + 6][0] == s[i]; }
  }

  lemma StartsAfterTag(pre: string, s: string)
    requires AfterTag(pre) && |pre| <= |s| && s[..|pre|] == pre
    ensures ItemStart(s, |pre|)
  {
    if |pre| > 0 { assert s[|pre| - 1] == s[..|pre|][|pre| - 1]; }
  }

  lemma Regroup4(pre: string, a: string, x: string, b: string, rest: string)
    ensures pre + (a + x + b + rest) == pre + a + x + b + rest
    ensures pre + (a + x) == pre + a + x
  {
  }

  /** A line text placed between a prefix and a tail. */
  lemma MiddleOf(pre: string, m: string, rest: string, s: string)
    requires s == pre + m + rest
    ensures s[|pre|..|pre| + |m|] == m
  {
    SliceLeft(pre + m, rest, |pre|, |pre| + |m|);
    SliceRight(pre, m, 0, |m|);
    assert m[0..|m|] == m;
  }

  /** A line text placed after a prefix at the end. */
  lemma EndOf(pre: string, m: string, s: string)
    requires s == pre + m
    ensures s[|pre|..|s|] == m
  {
    SliceRight(pre, m, 0, |m|);
    assert m[0..|m|] == m;
  }

  /** The marker, the text and the `<br>` of a line regroup into one line. */
  lemma RegroupLine(pre: string, a: string, x: string, b: string, rest: string)
    ensures pre + a + x + b + rest == pre + (a + x + b) + rest
  {
  }

  /** The marker and the rest of a line regroup after the prefix. */
  lemma RegroupHead(pre: string, a: string, x: string, b: string, rest: string)
    ensures pre + a + x + b + rest == pre + (a + (x + b + rest))
  {
  }

  // ------------------------------------------------------------------ bullet lines

  /** `-\s` at `k`. */
  predicate DashAt(s: string, k: nat)
  {
    k + 1 < |s| && s[k] == '-' && IsSpace(s[k + 1])
  }

  /** The bullet rule where the dash and the space follow the indentation. */
  lemma BulletItemHit(s: string, i: nat, k: nat, t: nat, e: nat, n: nat, x: string)
    requires i <= |s| && ItemStart(s, i) && k == i + NbspWidth(s, i)
    requires DashAt(s, k) && t == k + 2 && e == LineEnd(s, t)
    requires n == e + EndLength(s, e) - i && x == s[t..e]
    ensures BulletItem(s, i) == Some(Match(n, [x]))
  {
    assert k + 1 < |s| && s[k] == '-' && IsSpace(s[k + 1]);
  }

  /** The list item a bullet line with no indentation becomes. */
  function BulletEntry(x: string): string
  {
    BulletEntryAt(0, x)
  }

  function BulletEntries(xs: seq<string>): (r: seq<string>)
    ensures |r| == |xs|
  {
    if xs == [] then [] else [BulletEntry(xs[0])] + BulletEntries(xs[1..])
  }

  /** `- x` lines, one after another, each ended by `<br>` but the last. */
  function BulletLines(xs: seq<string>): string
    requires |xs| >= 1
  {
    if |xs| == 1 then "- " + xs[0] else "- " + xs[0] + Br + BulletLines(xs[1..])
  }

  /** A matched bullet line without `&nbsp;` renders as a one-item list with margin zero. */
  lemma BulletRendered(m: string, x: string)
    requires NbspCount(m) == 0
    ensures BulletRender(m, [x]) == Listed([BulletEntry(x)], "<ul>", "</ul>")
  {
    ListedOne(BulletEntry(x), "<ul>", "</ul>");
  }

  /** A dash and a space right after a tag start an unindented bullet item. */
  lemma BulletHead(pre: string, r: string, s: string)
    requires AfterTag(pre) && s == pre + ("- " + r)
    ensures ItemStart(s, |pre|) && NbspWidth(s, |pre|) == 0 && DashAt(s, |pre|)
  {
    StartsAfterTag(pre, s);
    assert s[|pre|] == '-' && s[|pre| + 1] == ' ';
    NoIndentAt(s, |pre|);
  }

  /** A bullet line after a tag, followed by `<br>`, is one item that takes the `<br>` with it. */
  lemma BulletAtBreak(pre: string, x: string, rest: string)
    requires ItemText(x) && AfterTag(pre)
    ensures BulletItem(pre + "- " + x + Br + rest, |pre|) == Some(Match(|x| + 6, [x]))
  {
    var mk := pre + "- ";
    var s := mk + x + Br + rest;
    RegroupHead(pre, "- ", x, Br, rest);
    BulletHead(pre, x + Br + rest, s);
    LineAtBreak(mk, x, rest, s);
    assert |pre| + 2 == |mk|;
    BulletItemHit(s, |pre|, |pre|, |mk|, |mk| + |x|, |x| + 6, x);
  }

  /** A bullet line after a tag that ends the text is one item that runs to the end. */
  lemma BulletAtEnd(pre: string, x: string)
    requires ItemText(x) && AfterTag(pre)
    ensures BulletItem(pre + "- " + x, |pre|) == Some(Match(|x| + 2, [x]))
  {
    var mk := pre + "- ";
    var s := mk + x;
    Regroup4(pre, "- ", x, [], []);
    BulletHead(pre, x, s);
    ItemTextQuiet(mk, x);
    LineEndAtEnd(s, |mk|);
    EndOf(mk, x, s);
    assert |pre| + 2 == |mk|;
    BulletItemHit(s, |pre|, |pre|, |mk|, |s|, |x| + 2, x);
  }

  /** The scan turns a bullet line followed by `<br>` into its list and goes on after the `<br>`. */
  lemma BulletStep(pre: string, x: string, rest: string, next: string)
    requires ItemText(x) && AfterTag(pre) && next == pre + "- " + x + Br
    ensures ReplaceFrom(next + rest, |pre|, BulletItem, BulletRender)
            == Listed([BulletEntry(x)], "<ul>", "</ul>") + ReplaceFrom(next + rest, |next|, BulletItem, BulletRender)
  {
    var s := next + rest;
    BulletStepHit(pre, x, rest, s);
    ReplaceHitTo(s, |pre|, BulletItem, BulletRender, |x| + 6, [x], Listed([BulletEntry(x)], "<ul>", "</ul>"), |next|);
  }

  /** A bullet line followed by `<br>` is a hit that renders as its one-item list. */
  lemma BulletStepHit(pre: string, x: string, rest: string, s: string)
    requires ItemText(x) && AfterTag(pre) && s == pre + "- " + x + Br + rest
    ensures |pre| + |x| + 6 <= |s| && BulletItem(s, |pre|) == Some(Match(|x| + 6, [x]))
    ensures BulletRender(s[|pre|..|pre| + |x| + 6], [x]) == Listed([BulletEntry(x)], "<ul>", "</ul>")
  {
    var m := "- " + x + Br;
    BulletAtBreak(pre, x, rest);
    RegroupLine(pre, "- ", x, Br, rest);
    MiddleOf(pre, m, rest, s);
    assert |pre| + |m| == |pre| + |x| + 6;
    BulletLineRendered(x, m);
  }

  /** A bullet line with no indentation, followed by `<br>`, renders as its one-item list. */
  lemma BulletLineRendered(x: string, m: string)
    requires ItemText(x) && m == "- " + x + Br
    ensures BulletRender(m, [x]) == Listed([BulletEntry(x)], "<ul>", "</ul>")
  {
    LineLacksNbsp("- ", x, Br);
    NoNbspCount(m);
    BulletRendered(m, x);
  }

  /** The scan turns a last bullet line into its list. */
  lemma BulletEnd(pre: string, x: string)
    requires ItemText(x) && AfterTag(pre)
    ensures ReplaceFrom(pre + "- " + x, |pre|, BulletItem, BulletRender) == Listed([BulletEntry(x)], "<ul>", "</ul>")
  {
    var s, out := pre + "- " + x, Listed([BulletEntry(x)], "<ul>", "</ul>");
    BulletEndHit(pre, x, s);
    ReplaceHitLast(s, |pre|, BulletItem, BulletRender, |x| + 2, [x], out);
  }

  /** A last bullet line is a hit to the end that renders as its one-item list. */
  lemma BulletEndHit(pre: string, x: string, s: string)
    requires ItemText(x) && AfterTag(pre) && s == pre + "- " + x
    ensures |pre| + |x| + 2 == |s| && BulletItem(s, |pre|) == Some(Match(|x| + 2, [x]))
    ensures BulletRender(s[|pre|..|s|], [x]) == Listed([BulletEntry(x)], "<ul>", "</ul>")
  {
    var m := "- " + x;
    BulletAtEnd(pre, x);
    Regroup4(pre, "- ", x, [], []);
    EndOf(pre, m, s);
    LineLacksNbsp("- ", x, []);
    assert m + [] == m;
    NoNbspCount(m);
    BulletRendered(m, x);
  }

  /** From an item start on, consecutive bullet lines become one one-item list per line. */
  lemma {:induction false} BulletLinesFrom(pre: string, xs: seq<string>)
    requires |xs| >= 1 && ItemTexts(xs) && AfterTag(pre)
    ensures ReplaceFrom(pre + BulletLines(xs), |pre|, BulletItem, BulletRender)
            == Listed(BulletEntries(xs), "<ul>", "</ul>")
    decreases |xs|
  {
    assert ItemText(xs[0]);
    if |xs| == 1 {
      Regroup4(pre, "- ", xs[0], [], []);
      BulletEnd(pre, xs[0]);
      assert BulletEntries(xs) == [BulletEntry(xs[0])];
    } else {
      var next := pre + "- " + xs[0] + Br;
      assert ItemTexts(xs[1..]) by {
        forall k | 0 <= k < |xs[1..]| ensures ItemText(xs[1..][k]) { assert xs[1..][k] == xs[k + 1]; }
      }
      BulletLinesFrom(next, xs[1..]);
      BulletLinesStep(pre, xs, next);
    }
  }

  /** One line of the induction: the first line's list, then the lists of the lines after it. */
  lemma BulletLinesStep(pre: string, xs: seq<string>, next: string)
    requires |xs| >= 2 && ItemText(xs[0]) && AfterTag(pre) && next == pre + "- " + xs[0] + Br
    requires ReplaceFrom(next + BulletLines(xs[1..]), |next|, BulletItem, BulletRender)
             == Listed(BulletEntries(xs[1..]), "<ul>", "</ul>")
    ensures ReplaceFrom(pre + BulletLines(xs), |pre|, BulletItem, BulletRender)
            == Listed(BulletEntries(xs), "<ul>", "</ul>")
  {
    BulletLinesSplit(pre, xs, next);
    BulletStep(pre, xs[0], BulletLines(xs[1..]), next);
    BulletEntriesSplit(xs);
  }

  /** The first bullet line and its `<br>` move into the prefix. */
  lemma BulletLinesSplit(pre: string, xs: seq<string>, next: string)
    requires |xs| >= 2 && next == pre + "- " + xs[0] + Br
    ensures pre + BulletLines(xs) == next + BulletLines(xs[1..])
  {
    Regroup4(pre, "- ", xs[0], Br, BulletLines(xs[1..]));
  }

  /** The lists of the bullet lines are the first line's list, then the lists of the rest. */
  lemma BulletEntriesSplit(xs: seq<string>)
    requires |xs| >= 1
    ensures Listed(BulletEntries(xs), "<ul>", "</ul>")
            == Listed([BulletEntry(xs[0])], "<ul>", "</ul>") + Listed(BulletEntries(xs[1..]), "<ul>", "</ul>")
  {
    assert BulletEntries(xs) == [BulletEntry(xs[0])] + BulletEntries(xs[1..]);
    ListedPrepend(BulletEntry(xs[0]), BulletEntries(xs[1..]), "<ul>", "</ul>");
  }

  /**
   * Consecutive bullet lines become consecutive one-item lists, one per line and in
   * order: the `<br>` between two lines is consumed by the item before it.
   */
  lemma BulletLinesListed(xs: seq<string>)
    requires |xs| >= 1 && ItemTexts(xs)
    ensures Bullets(BulletLines(xs)) == Listed(BulletEntries(xs), "<ul>", "</ul>")
  {
    BulletLinesFrom([], xs);
    assert [] + BulletLines(xs) == BulletLines(xs);
  }

  /**
   * Consecutive bullet lines whose items hold no list tags end up as one list: the rule
   * gives one list per line and the merge joins them, the items in line order.
   */
  lemma BulletLinesMerge(xs: seq<string>)
    requires |xs| >= 1 && ItemTexts(xs) && PlainItems(BulletEntries(xs))
    ensures MergeLists(Bullets(BulletLines(xs))) == "<ul>" + Concat(BulletEntries(xs)) + "</ul>"
  {
    BulletLinesListed(xs);
    BulletListsMerge(BulletEntries(xs));
  }

  // ------------------------------------------------------------------ numbered lines

  /** `\d(?:\.|\))\s`: a digit, a `.` or `)`, and a white-space character. */
  predicate Marker(mk: string)
  {
    |mk| == 3 && IsDigit(mk[0]) && (mk[1] == '.' || mk[1] == ')') && IsSpace(mk[2])
  }

  predicate Markers(ms: seq<string>)
  {
    forall k :: 0 <= k < |ms| ==> Marker(ms[k])
  }

  /** A marker at `k`. */
  predicate MarkerAt(s: string, k: nat)
  {
    k + 2 < |s| && Marker(s[k..k + 3])
  }

  lemma MarkerQuiet(mk: string)
    requires Marker(mk)
    ensures forall k :: 0 <= k < |mk| ==> mk[k] != '&'
  {
  }

  /** The numbered rule where a marker follows the indentation. */
  lemma NumberedItemHit(s: string, i: nat, k: nat, t: nat, e: nat, n: nat, mk: string, x: string)
    requires i <= |s| && ItemStart(s, i) && k == i + NbspWidth(s, i)
    requires MarkerAt(s, k) && t == k + 3 && e == LineEnd(s, t)
    requires n == e + EndLength(s, e) - i && mk == s[k..t] && x == s[t..e]
    ensures NumberedItem(s, i) == Some(Match(n, [mk, x]))
  {
    MarkerChars(s, k);
  }

  /** A marker at `k` is a digit, a `.` or `)`, and a white-space character. */
  lemma MarkerChars(s: string, k: nat)
    requires MarkerAt(s, k)
    ensures k + 2 < |s| && IsDigit(s[k]) && (s[k + 1] == '.' || s[k + 1] == ')') && IsSpace(s[k + 2])
  {
    assert s[k..k + 3][0] == s[k] && s[k..k + 3][1] == s[k + 1] && s[k..k + 3][2] == s[k + 2];
  }

  /** The list item a numbered line with no indentation becomes; the marker goes in the span. */
  function NumberedEntry(mk: string, x: string): string
  {
    NumberedEntryAt(0, mk, x)
  }

  function NumberedEntries(ms: seq<string>, xs: seq<string>): (r: seq<string>)
    requires |ms| == |xs|
    ensures |r| == |xs|
  {
    if xs == [] then [] else [NumberedEntry(ms[0], xs[0])] + NumberedEntries(ms[1..], xs[1..])
  }

  /** Numbered lines, one after another, each ended by `<br>` but the last. */
  function NumberedLines(ms: seq<string>, xs: seq<string>): string
    requires |ms| == |xs| >= 1
  {
    if |xs| == 1 then ms[0] + xs[0] else ms[0] + xs[0] + Br + NumberedLines(ms[1..], xs[1..])
  }

  /** A matched numbered line without `&nbsp;` renders as a one-item list with margin zero. */
  lemma NumberedRendered(m: string, mk: string, x: string)
    requires NbspCount(m) == 0
    ensures NumberedRender(m, [mk, x]) == Listed([NumberedEntry(mk, x)], "<ol>", "</ol>")
  {
    ListedOne(NumberedEntry(mk, x), "<ol>", "</ol>");
  }

  /** A numbered line after a tag, followed by `<br>`, is one item that takes the `<br>` with it. */
  /** A marker right after a tag starts an unindented numbered item. */
  lemma NumberedHead(pre: string, mk: string, r: string, s: string)
    requires AfterTag(pre) && Marker(mk) && s == pre + (mk + r)
    ensures ItemStart(s, |pre|) && NbspWidth(s, |pre|) == 0 && MarkerAt(s, |pre|) && s[|pre|..|pre + mk|] == mk
  {
    StartsAfterTag(pre, s);
    assert s[|pre|] == mk[0];
    NoIndentAt(s, |pre|);
    AppendAssoc(pre, mk, r);
    MiddleOf(pre, mk, r, s);
    assert |pre| + |mk| == |pre + mk|;
  }

  lemma NumberedAtBreak(pre: string, mk: string, x: string, rest: string)
    requires Marker(mk) && ItemText(x) && AfterTag(pre)
    ensures NumberedItem(pre + mk + x + Br + rest, |pre|) == Some(Match(|x| + 7, [mk, x]))
  {
    var s := pre + mk + x + Br + rest;
    RegroupHead(pre, mk, x, Br, rest);
    NumberedHead(pre, mk, x + Br + rest, s);
    LineAtBreak(pre + mk, x, rest, s);
    assert |pre| + 3 == |pre + mk|;
    NumberedItemHit(s, |pre|, |pre|, |pre + mk|, |pre + mk| + |x|, |x| + 7, mk, x);
  }

  /** A numbered line after a tag that ends the text is one item that runs to the end. */
  lemma NumberedAtEnd(pre: string, mk: string, x: string)
    requires Marker(mk) && ItemText(x) && AfterTag(pre)
    ensures NumberedItem(pre + mk + x, |pre|) == Some(Match(|x| + 3, [mk, x]))
  {
    var s := pre + mk + x;
    Regroup4(pre, mk, x, [], []);
    NumberedHead(pre, mk, x, s);
    ItemTextQuiet(pre + mk, x);
    LineEndAtEnd(s, |pre + mk|);
    EndOf(pre + mk, x, s);
    assert |pre| + 3 == |pre + mk|;
    NumberedItemHit(s, |pre|, |pre|, |pre + mk|, |s|, |x| + 3, mk, x);
  }

  /** The scan turns a numbered line followed by `<br>` into its list and goes on after the `<br>`. */
  lemma NumberedStep(pre: string, mk: string, x: string, rest: string, next: string)
    requires Marker(mk) && ItemText(x) && AfterTag(pre) && next == pre + mk + x + Br
    ensures ReplaceFrom(next + rest, |pre|, NumberedItem, NumberedRender)
            == Listed([NumberedEntry(mk, x)], "<ol>", "</ol>") + ReplaceFrom(next + rest, |next|, NumberedItem, NumberedRender)
  {
    var s := next + rest;
    NumberedStepHit(pre, mk, x, rest, s);
    ReplaceHitTo(s, |pre|, NumberedItem, NumberedRender, |x| + 7, [mk, x], Listed([NumberedEntry(mk, x)], "<ol>", "</ol>"), |next|);
  }

  /** A numbered line followed by `<br>` is a hit that renders as its one-item list. */
  lemma NumberedStepHit(pre: string, mk: string, x: string, rest: string, s: string)
    requires Marker(mk) && ItemText(x) && AfterTag(pre) && s == pre + mk + x + Br + rest
    ensures |pre| + |x| + 7 <= |s| && NumberedItem(s, |pre|) == Some(Match(|x| + 7, [mk, x]))
    ensures NumberedRender(s[|pre|..|pre| + |x| + 7], [mk, x]) == Listed([NumberedEntry(mk, x)], "<ol>", "</ol>")
  {
    var m := mk + x + Br;
    NumberedAtBreak(pre, mk, x, rest);
    RegroupLine(pre, mk, x, Br, rest);
    MiddleOf(pre, m, rest, s);
    assert |pre| + |m| == |pre| + |x| + 7;
    MarkerQuiet(mk);
    LineLacksNbsp(mk, x, Br);
    NoNbspCount(m);
    NumberedRendered(m, mk, x);
  }

  /** The scan turns a last numbered line into its list. */
  lemma NumberedEnd(pre: string, mk: string, x: string)
    requires Marker(mk) && ItemText(x) && AfterTag(pre)
    ensures ReplaceFrom(pre + mk + x, |pre|, NumberedItem, NumberedRender) == Listed([NumberedEntry(mk, x)], "<ol>", "</ol>")
  {
    var s, out := pre + mk + x, Listed([NumberedEntry(mk, x)], "<ol>", "</ol>");
    NumberedEndHit(pre, mk, x, s);
    ReplaceHitLast(s, |pre|, NumberedItem, NumberedRender, |x| + 3, [mk, x], out);
  }

  /** A last numbered line is a hit to the end that renders as its one-item list. */
  lemma NumberedEndHit(pre: string, mk: string, x: string, s: string)
    requires Marker(mk) && ItemText(x) && AfterTag(pre) && s == pre + mk + x
    ensures |pre| + |x| + 3 == |s| && NumberedItem(s, |pre|) == Some(Match(|x| + 3, [mk, x]))
    ensures NumberedRender(s[|pre|..|s|], [mk, x]) == Listed([NumberedEntry(mk, x)], "<ol>", "</ol>")
  {
    var m := mk + x;
    NumberedAtEnd(pre, mk, x);
    Regroup4(pre, mk, x, [], []);
    EndOf(pre, m, s);
    MarkerQuiet(mk);
    LineLacksNbsp(mk, x, []);
    assert m + [] == m;
    NoNbspCount(m);
    NumberedRendered(m, mk, x);
  }

  /** From an item start on, consecutive numbered lines become one one-item list per line. */
  lemma {:induction false} NumberedLinesFrom(pre: string, ms: seq<string>, xs: seq<string>)
    requires |ms| == |xs| >= 1 && Markers(ms) && ItemTexts(xs) && AfterTag(pre)
    ensures ReplaceFrom(pre + NumberedLines(ms, xs), |pre|, NumberedItem, NumberedRender)
            == Listed(NumberedEntries(ms, xs), "<ol>", "</ol>")
    decreases |xs|
  {
    NumberedLinesHeads(ms, xs);
    if |xs| == 1 {
      NumberedLinesLast(pre, ms, xs);
    } else {
      var next := pre + ms[0] + xs[0] + Br;
      NumberedLinesFrom(next, ms[1..], xs[1..]);
      NumberedLinesStep(pre, ms[0], xs[0], ms[1..], xs[1..], next);
    }
  }

  /** The first line's marker and text, and the lines after it, meet the induction's demands. */
  lemma NumberedLinesHeads(ms: seq<string>, xs: seq<string>)
    requires |ms| == |xs| >= 1 && Markers(ms) && ItemTexts(xs)
    ensures Marker(ms[0]) && ItemText(xs[0]) && Markers(ms[1..]) && ItemTexts(xs[1..])
    ensures ms == [ms[0]] + ms[1..] && xs == [xs[0]] + xs[1..]
  {
    forall k | 0 <= k < |xs[1..]| ensures ItemText(xs[1..][k]) && Marker(ms[1..][k]) {
      assert xs[1..][k] == xs[k + 1] && ms[1..][k] == ms[k + 1];
    }
  }

  /** The last numbered line of the induction becomes its list. */
  lemma NumberedLinesLast(pre: string, ms: seq<string>, xs: seq<string>)
    requires |ms| == |xs| == 1 && Marker(ms[0]) && ItemText(xs[0]) && AfterTag(pre)
    ensures ReplaceFrom(pre + NumberedLines(ms, xs), |pre|, NumberedItem, NumberedRender)
            == Listed(NumberedEntries(ms, xs), "<ol>", "</ol>")
  {
    Regroup4(pre, ms[0], xs[0], [], []);
    NumberedEnd(pre, ms[0], xs[0]);
    assert NumberedEntries(ms, xs) == [NumberedEntry(ms[0], xs[0])];
  }

  /** One line of the induction: the first line's list, then the lists of the lines after it. */
  lemma NumberedLinesStep(pre: string, mk: string, x: string, ms: seq<string>, xs: seq<string>, next: string)
    requires |ms| == |xs| >= 1 && Marker(mk) && ItemText(x) && AfterTag(pre) && next == pre + mk + x + Br
    requires ReplaceFrom(next + NumberedLines(ms, xs), |next|, NumberedItem, NumberedRender)
             == Listed(NumberedEntries(ms, xs), "<ol>", "</ol>")
    ensures ReplaceFrom(pre + NumberedLines([mk] + ms, [x] + xs), |pre|, NumberedItem, NumberedRender)
            == Listed(NumberedEntries([mk] + ms, [x] + xs), "<ol>", "</ol>")
  {
    NumberedLinesSplit(pre, mk, x, ms, xs, next);
    NumberedStep(pre, mk, x, NumberedLines(ms, xs), next);
    NumberedEntriesSplit(mk, x, ms, xs);
  }

  /** The first numbered line and its `<br>` move into the prefix. */
  lemma NumberedLinesSplit(pre: string, mk: string, x: string, ms: seq<string>, xs: seq<string>, next: string)
    requires |ms| == |xs| >= 1 && next == pre + mk + x + Br
    ensures pre + NumberedLines([mk] + ms, [x] + xs) == next + NumberedLines(ms, xs)
  {
    assert ([mk] + ms)[1..] == ms && ([x] + xs)[1..] == xs;
    Regroup4(pre, mk, x, Br, NumberedLines(ms, xs));
  }

  /** The lists of the numbered lines are the first line's list, then the lists of the rest. */
  lemma NumberedEntriesSplit(mk: string, x: string, ms: seq<string>, xs: seq<string>)
    requires |ms| == |xs|
    ensures Listed(NumberedEntries([mk] + ms, [x] + xs), "<ol>", "</ol>")
            == Listed([NumberedEntry(mk, x)], "<ol>", "</ol>") + Listed(NumberedEntries(ms, xs), "<ol>", "</ol>")
  {
    assert ([mk] + ms)[1..] == ms && ([x] + xs)[1..] == xs;
    assert NumberedEntries([mk] + ms, [x] + xs) == [NumberedEntry(mk, x)] + NumberedEntries(ms, xs);
    ListedPrepend(NumberedEntry(mk, x), NumberedEntries(ms, xs), "<ol>", "</ol>");
  }

  /**
   * Consecutive numbered lines become consecutive one-item numbered lists, one per line
   * and in order, each with its own marker.
   */
  lemma NumberedLinesListed(ms: seq<string>, xs: seq<string>)
    requires |ms| == |xs| >= 1 && Markers(ms) && ItemTexts(xs)
    ensures Numbered(NumberedLines(ms, xs)) == Listed(NumberedEntries(ms, xs), "<ol>", "</ol>")
  {
    NumberedLinesFrom([], ms, xs);
    assert [] + NumberedLines(ms, xs) == NumberedLines(ms, xs);
  }

  /**
   * Consecutive numbered lines whose items hold no list tags end up as one numbered list,
   * the items in line order.
   */
  lemma NumberedLinesMerge(ms: seq<string>, xs: seq<string>)
    requires |ms| == |xs| >= 1 && Markers(ms) && ItemTexts(xs) && PlainItems(NumberedEntries(ms, xs))
    ensures MergeLists(Numbered(NumberedLines(ms, xs))) == "<ol>" + Concat(NumberedEntries(ms, xs)) + "</ol>"
  {
    NumberedLinesListed(ms, xs);
    NumberedListsMerge(NumberedEntries(ms, xs));
  }

  /** The indentation is `n` runs of `&nbsp;`, followed by the marker. */
  lemma NumberedMargin(n: nat, mk: string, x: string, s: string, k: nat)
    requires Marker(mk) && s == Indent(n) + mk + x && k == |Indent(n)|
    ensures k == NbspWidth(s, 0) && MarkerAt(s, k) && s[k..k + 3] == mk
  {
    var w := mk + x;
    assert s == Indent(n) + w;
    NoIndentAt(w, 0);
    assert !At(w, 0, Nbsp);
    IndentRun(n, w);
    assert s[k..k + 3] == mk;
  }

  /** After the marker, the item text runs to the end. */
  lemma NumberedBody(n: nat, mk: string, x: string, s: string, k: nat)
    requires Marker(mk) && ItemText(x) && s == Indent(n) + mk + x && k == |Indent(n)|
    ensures k + 3 <= |s| && LineEnd(s, k + 3) == |s| && s[k + 3..|s|] == x
  {
    ItemTextQuiet(Indent(n) + mk, x);
    LineEndAtEnd(s, k + 3);
  }

  /** A numbered line indented by `n` non-breaking spaces is one item that runs to the end. */
  lemma NumberedMatch(n: nat, mk: string, x: string)
    requires Marker(mk) && ItemText(x)
    ensures NumberedItem(Indent(n) + mk + x, 0) == Some(Match(|Indent(n) + mk + x|, [mk, x]))
  {
    var s := Indent(n) + mk + x;
    var k := |Indent(n)|;
    NumberedMargin(n, mk, x, s, k);
    NumberedBody(n, mk, x, s, k);
    assert ItemStart(s, 0);
    assert EndLength(s, |s|) == 0;
    NumberedItemHit(s, 0, k, k + 3, |s|, |s|, mk, x);
  }

  /** The margin counts exactly the indentation. */
  lemma NumberedIndentCount(n: nat, mk: string, x: string)
    requires Marker(mk) && ItemText(x)
    ensures NbspCount(Indent(n) + mk + x) == n
  {
    var w := mk + x;
    assert Indent(n) + w == Indent(n) + mk + x;
    IndentCount(n, w);
    MarkerQuiet(mk);
    LineLacksNbsp(mk, x, []);
    assert mk + x + [] == w;
    NoNbspCount(w);
  }

  /**
   * A line indented by `n` non-breaking spaces and starting with a digit, `.` or `)`
   * and a space becomes a one-item numbered list indented `n` characters, with the
   * marker in the span.
   */
  lemma NumberedLine(n: nat, mk: string, x: string)
    requires Marker(mk) && ItemText(x)
    ensures Numbered(Indent(n) + mk + x) == "<ol>" + NumberedEntryAt(n, mk, x) + "</ol>"
  {
    var s, out := Indent(n) + mk + x, "<ol>" + NumberedEntryAt(n, mk, x) + "</ol>";
    NumberedMatch(n, mk, x);
    NumberedIndentCount(n, mk, x);
    assert s[0..|s|] == s;
    ReplaceHitLast(s, 0, NumberedItem, NumberedRender, |s|, [mk, x], out);
  }

  // ------------------------------------------------------------------ headings

  /** `&#x23; x` on a line of its own becomes an `h2` heading. */
  lemma HeadingLine(x: string)
    requires ItemText(x)
    ensures Headings(Hash + " " + x) == "<h2>" + x + "</h2>"
  {
    var s := Hash + " " + x;
    assert LineStart(s, 0) && HeadingMark(s, 0);
    ItemTextQuiet(Hash + " ", x);
    LineEndAtEnd(s, 7);
    assert EndLength(s, |s|) == 0;
    assert s[7..|s|] == x;
    assert Heading(s, 0) == Some(Match(|s|, ["", x]));
    ReplaceHitAs(s, 0, Heading, HeadingRender, |s|, ["", x], "<h2>" + x + "</h2>");
  }

  /** A heading line followed by `<br>` is one match that takes the `<br>` with it. */
  lemma HeadingFirst(x: string, rest: string)
    requires ItemText(x)
    ensures Heading(Hash + " " + x + Br + rest, 0) == Some(Match(|x| + 11, ["", x]))
  {
    var s := Hash + " " + x + Br + rest;
    assert s[0..6] == Hash && s[6] == ' ';
    assert LineStart(s, 0) && HeadingMark(s, 0);
    LineEndAtBreak(Hash + " ", x, rest);
    assert s[7..7 + |x|] == x;
  }

  /** After the first heading's `<br>`, no position of `&#x23; y` follows a line start or a `<br>`. */
  lemma HeadingMissed(p: string, y: string, j: nat)
    requires ItemText(y) && |p| > 0 && p[|p| - 1] == '>'
    requires |p| <= j < |p + Hash + " " + y|
    ensures Heading(p + Hash + " " + y, j) == None
  {
    var s := p + Hash + " " + y;
    var h := |p| + 7;
    assert !LineStart(s, j) by {
      if j == |p| {
        assert s[j - 1] == p[|p| - 1];
      } else if j - 1 < h {
        assert s[j - 1] == (Hash + " ")[j - 1 - |p|];
      } else {
        assert s[j - 1] == y[j - 1 - h];
      }
    }
    if j < h {
      assert s[j] == (Hash + " ")[j - |p|];
      if j + 4 <= |s| { assert s[j..j + 4][0] == s[j]; }
    } else {
      ItemTextQuiet(p + Hash + " ", y);
    }
  }

  /**
   * A heading swallows the `<br>` that ends its line, so a heading line directly after
   * another one no longer follows a line start or a `<br>` and stays text.
   */
  lemma ConsecutiveHeadings(x: string, y: string)
    requires ItemText(x) && ItemText(y)
    ensures Headings(Hash + " " + x + Br + Hash + " " + y) == "<h2>" + x + "</h2>" + Hash + " " + y
  {
    var p, rest := Hash + " " + x + Br, Hash + " " + y;
    var s, out := p + rest, "<h2>" + x + "</h2>";
    assert s == Hash + " " + x + Br + Hash + " " + y;
    FirstHeadingHit(x, rest, p, s);
    ReplaceHitTo(s, 0, Heading, HeadingRender, |x| + 11, ["", x], out, |p|);
    HeadingsQuietAfter(p, y, s);
  }

  /** The first heading line of `p + rest` is a hit up to the end of `p` that renders as `<h2>`. */
  lemma FirstHeadingHit(x: string, rest: string, p: string, s: string)
    requires ItemText(x) && p == Hash + " " + x + Br && s == p + rest
    ensures |x| + 11 == |p| <= |s| && Heading(s, 0) == Some(Match(|x| + 11, ["", x]))
    ensures HeadingRender(s[0..0 + (|x| + 11)], ["", x]) == "<h2>" + x + "</h2>"
  {
    HeadingFirst(x, rest);
    SliceLeft(p, rest, 0, |p|);
    assert p[0..|p|] == p;
  }

  /** After a tag, a heading line that does not start a line is left as it is. */
  lemma HeadingsQuietAfter(p: string, y: string, s: string)
    requires ItemText(y) && |p| > 0 && p[|p| - 1] == '>' && s == p + (Hash + " " + y)
    ensures ReplaceFrom(s, |p|, Heading, HeadingRender) == Hash + " " + y
  {
    forall j | |p| <= j < |s| ensures !Hit(s, j, Heading(s, j)) {
      assert s == p + Hash + " " + y;
      HeadingMissed(p, y, j);
    }
    ReplaceNoHit(s, |p|, Heading, HeadingRender);
    EndOf(p, Hash + " " + y, s);
    SliceToEnd(s, |p|);
  }
}
