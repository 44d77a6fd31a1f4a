/**
 * `convertMarkdown`: turns the markers of a small markdown dialect, in text that
 * has already been escaped, linked and had its line feeds turned into `<br>`,
 * into HTML.  Code blocks and link texts are first taken out of the text and
 * parked in two queues (each replaced by a placeholder word), the inline and
 * line rules run, consecutive lists are merged, and the parked texts are put
 * back in the order they were taken out.
 */
module Markdown {
  import opened Text
  import opened Scan
  import opened Placeholder

  const PrePlaceholder := "pasc00991j9a9d8cu8hlcaicbb"
  const LinkPlaceholder := "ja7dc9120ksa0123oajx8123"

  /** Three escaped backticks, `&#x60;&#x60;&#x60;`. */
  const Fence := "&#x60;&#x60;&#x60;"
  /** The escaped `#`. */
  const Hash := "&#x23;"

  /** A character of `.` that does not start a `<br>`: what the lazy line content runs over. */
  predicate InLine(s: string, j: nat)
  {
    j < |s| && !IsLineTerminator(s[j]) && !At(s, j, Br)
  }

  /** A lazy `(.*?)` followed by `(?:<br>|$)` under the `m` flag: where the content stops. */
  function LineEnd(s: string, k: nat): (e: nat)
    requires k <= |s|
    ensures k <= e <= |s|
    ensures forall j :: k <= j < e ==> InLine(s, j)
    ensures e == |s| || At(s, e, Br) || IsLineTerminator(s[e])
    decreases |s| - k
  {
    if k == |s| || At(s, k, Br) || IsLineTerminator(s[k]) then k else LineEnd(s, k + 1)
  }

  /** How much of the line end the match consumes: the `<br>`, or nothing at `$`. */
  function EndLength(s: string, e: nat): nat
  {
    if At(s, e, Br) then |Br| else 0
  }

  // ------------------------------------------------------------------ code blocks

  /** `&#x60;&#x60;&#x60;(?:<br>)?([\s\S]*?)&#x60;&#x60;&#x60;`. */
  function FencedCode(s: string, i: nat): Option<Match>
  {
    if !At(s, i, Fence) then None
    else
      var j := i + |Fence|;
      var afterBr := if At(s, j, Br) then LazyTo(s, j + |Br|, Fence, true) else None;
      if afterBr.Some? then Some(Match(afterBr.value + |Fence| - i, [s[j + |Br|..afterBr.value]]))
      else match LazyTo(s, j, Fence, true)
        case Some(e) => Some(Match(e + |Fence| - i, [s[j..e]]))
        case None => None
  }

  /** `'<pre>$1</pre>'`. */
  function PreWrap(m: string, g: seq<string>): string
  {
    "<pre>" + Group(g, 0) + "</pre>"
  }

  /** `<pre>([\s\S]*?)<\/pre><br>`. */
  function PreBlock(s: string, i: nat): Option<Match>
  {
    if !At(s, i, "<pre>") then None
    else match LazyTo(s, i + 5, "</pre><br>", true)
      case Some(e) => Some(Match(e + 10 - i, [s[i + 5..e]]))
      case None => None
  }

  /** The block keeps its tags, its content becomes the placeholder and the first `<br>` goes. */
  function PreStash(m: string, g: seq<string>): string
  {
    ReplaceFirst(ReplaceFirst(m, Group(g, 0), PrePlaceholder), Br, "")
  }

  /** The block's content is pushed onto `preContents`. */
  function PreLog(m: string, g: seq<string>): seq<string>
  {
    [Group(g, 0)]
  }

  // ------------------------------------------------------------------ link texts

  /** `<a[^>]*>(.*?)<\/a>`. */
  function AnchorTag(s: string, i: nat): Option<Match>
  {
    if !At(s, i, "<a") then None
    else
      var r := RunLength(s, i + 2, NotGt);
      if i + 2 + r >= |s| then None
      else match LazyTo(s, i + 3 + r, "</a>", false)
        case Some(e) => Some(Match(e + 4 - i, [s[i + 3 + r..e]]))
        case None => None
  }

  /** `new RegExp('', 'g')` matches at every position: the placeholder before each character and at the end. */
  function Spread(m: string, ph: string): string
  {
    ph + SpreadTail(m, ph)
  }

  function SpreadTail(m: string, ph: string): string
  {
    if m == [] then [] else [m[0]] + ph + SpreadTail(m[1..], ph)
  }

  /** Every occurrence of the link text inside the tag (its `href` too) becomes the placeholder. */
  function LinkStash(m: string, g: seq<string>): string
  {
    var c := Group(g, 0);
    if c == [] then Spread(m, LinkPlaceholder) else ReplaceLiteral(m, c, LinkPlaceholder)
  }

  /** A callback that pushes the same string at each match. */
  function PushConst(c: string): Log
  {
    (_: string, _: seq<string>) => [c]
  }

  /** The link text is pushed onto `aContents` once per occurrence replaced. */
  function LinkLog(m: string, g: seq<string>): seq<string>
  {
    var c := Group(g, 0);
    if c == [] then Repeat([], |m| + 1) else LogFrom(m, 0, Literal(c), PushConst(c))
  }

  // ------------------------------------------------------------------ inline styles

  /** `((?:(?!<br>)[^d])*)`: characters other than `d`, stopping at a `<br>`. */
  function InlineRun(s: string, k: nat, d: char): (n: nat)
    ensures k + n <= |s| || n == 0
    ensures forall j :: k <= j < k + n ==> s[j] != d
    decreases |s| - k
  {
    if k < |s| && s[k] != d && !At(s, k, Br) then 1 + InlineRun(s, k + 1, d) else 0
  }

  /** `\*((?:(?!<br>)[^*])*)\*` and its `_` and `~` siblings. */
  function Delimited(d: char): Finder
  {
    (s: string, i: nat) =>
      if i < |s| && s[i] == d && i + 1 + InlineRun(s, i + 1, d) < |s| && s[i + 1 + InlineRun(s, i + 1, d)] == d
      then Some(Match(InlineRun(s, i + 1, d) + 2, [s[i + 1..i + 1 + InlineRun(s, i + 1, d)]]))
      else None
  }

  /** `'<tag>$1</tag>'`. */
  function Tagged(tag: string): Render
  {
    (m: string, g: seq<string>) => "<" + tag + ">" + Group(g, 0) + "</" + tag + ">"
  }

  function Bold(s: string): string { ReplaceAll(s, Delimited('*'), Tagged("strong")) }
  function Italic(s: string): string { ReplaceAll(s, Delimited('_'), Tagged("em")) }
  function Crossed(s: string): string { ReplaceAll(s, Delimited('~'), Tagged("s")) }

  // ------------------------------------------------------------------ lists and headings

  /** `(?<=^|\>)` under the `m` flag. */
  predicate ItemStart(s: string, i: nat)
    requires i <= |s|
  {
    i == 0 || IsLineTerminator(s[i - 1]) || s[i - 1] == '>'
  }

  /** `(?:&nbsp;)*`: how many characters the `&nbsp;` that follow one another from `k` span. */
  function NbspWidth(s: string, k: nat): (w: nat)
    ensures k + w <= |s| || w == 0
    decreases |s| - k
  {
    if k < |s| && At(s, k, Nbsp) then |Nbsp| + NbspWidth(s, k + |Nbsp|) else 0
  }

  /** `match(/&nbsp;/g).length`. */
  function NbspCount(m: string): nat
  {
    |SeparatorsFrom(m, 0, Literal(Nbsp))|
  }

  /** `(?<=^|\>)(?:&nbsp;)*(?:-\s)(.*?)(?:<br>|$)`. */
  function BulletItem(s: string, i: nat): Option<Match>
  {
    if i > |s| || !ItemStart(s, i) then None
    else
      var k := i + NbspWidth(s, i);
      if k + 1 < |s| && s[k] == '-' && IsSpace(s[k + 1]) then
        var e := LineEnd(s, k + 2);
        Some(Match(e + EndLength(s, e) - i, [s[k + 2..e]]))
      else None
  }

  /** `<li style="margin-left: ${n}ch;">x</li>`: a bullet item indented `n` characters. */
  function BulletEntryAt(n: nat, x: string): string
  {
    "<li style=\"margin-left: " + NatToString(n) + "ch;\">" + x + "</li>"
  }

  /** `<ul>` around the item, indented by the number of `&nbsp;` in the match. */
  function BulletRender(m: string, g: seq<string>): string
  {
    "<ul>" + BulletEntryAt(NbspCount(m), Group(g, 0)) + "</ul>"
  }

  /** `(?<=^|\>)(?:&nbsp;)*(\d(?:\.|\))\s)(.*?)(?:<br>|$)`. */
  function NumberedItem(s: string, i: nat): Option<Match>
  {
    if i > |s| || !ItemStart(s, i) then None
    else
      var k := i + NbspWidth(s, i);
      if k + 2 < |s| && IsDigit(s[k]) && (s[k + 1] == '.' || s[k + 1] == ')') && IsSpace(s[k + 2]) then
        var e := LineEnd(s, k + 3);
        Some(Match(e + EndLength(s, e) - i, [s[k..k + 3], s[k + 3..e]]))
      else None
  }

  /** A numbered item indented `n` characters, its marker in a span hung 2 characters to the left. */
  function NumberedEntryAt(n: nat, mk: string, x: string): string
  {
    "<li style=\"position: relative; margin-left: " + NatToString(n)
    + "ch;\"><span style=\"position: absolute; left: -2ch; top: 0;\">" + mk + "</span>" + x + "</li>"
  }

  /** `<ol>` around the item, indented by the number of `&nbsp;` in the match. */
  function NumberedRender(m: string, g: seq<string>): string
  {
    "<ol>" + NumberedEntryAt(NbspCount(m), Group(g, 0), Group(g, 1)) + "</ol>"
  }

  /** `&#x23;\s` at `k`. */
  predicate HeadingMark(s: string, k: nat)
  {
    At(s, k, Hash) && k + |Hash| < |s| && IsSpace(s[k + |Hash|])
  }

  /** `(^|<br>)(?:&#x23;\s)(.*?)(?:<br>|$)`: the line start is tried before the `<br>`. */
  function Heading(s: string, i: nat): Option<Match>
  {
    if i > |s| then None
    else if LineStart(s, i) && HeadingMark(s, i) then
      var e := LineEnd(s, i + |Hash| + 1);
      Some(Match(e + EndLength(s, e) - i, ["", s[i + |Hash| + 1..e]]))
    else if At(s, i, Br) && HeadingMark(s, i + |Br|) then
      var e := LineEnd(s, i + |Br| + |Hash| + 1);
      Some(Match(e + EndLength(s, e) - i, [Br, s[i + |Br| + |Hash| + 1..e]]))
    else None
  }

  /** `'$1<h2>$2</h2>'`. */
  function HeadingRender(m: string, g: seq<string>): string
  {
    Group(g, 0) + "<h2>" + Group(g, 1) + "</h2>"
  }

  /** `</ul>\s*<ul>` and `</ol>\s*<ol>` at `i`. */
  function AdjacentAt(close: string, open: string, s: string, i: nat): Option<Match>
  {
    var w := RunLength(s, i + |close|, IsSpace);
    if At(s, i, close) && At(s, i + |close| + w, open) then Some(Match(|close| + w + |open|, [])) else None
  }

  function Adjacent(close: string, open: string): Finder
  {
    (s: string, i: nat) => AdjacentAt(close, open, s, i)
  }

  /** `.replace(/<\/ul>\s*<ul>/g, '')`. */
  function MergeBullets(s: string): string
  {
    ReplaceAll(s, Adjacent("</ul>", "<ul>"), Const(""))
  }

  /** `.replace(/<\/ol>\s*<ol>/g, '')`. */
  function MergeNumbered(s: string): string
  {
    ReplaceAll(s, Adjacent("</ol>", "<ol>"), Const(""))
  }

  function MergeLists(s: string): string
  {
    MergeNumbered(MergeBullets(s))
  }

  /** The inline rules, in the order the source chains them. */
  function Inline(s: string): string
  {
    Crossed(Italic(Bold(s)))
  }

  function Bullets(s: string): string { ReplaceAll(s, BulletItem, BulletRender) }
  function Numbered(s: string): string { ReplaceAll(s, NumberedItem, NumberedRender) }
  function Headings(s: string): string { ReplaceAll(s, Heading, HeadingRender) }

  /** The inline and line rules, in the order the source chains them. */
  function Styled(s: string): string
  {
    Headings(Numbered(Bullets(Inline(s))))
  }

  function Fenced(s: string): string { ReplaceAll(s, FencedCode, PreWrap) }
  function PreParked(s: string): string { ReplaceAll(s, PreBlock, PreStash) }
  function PreQueue(s: string): seq<string> { LogFrom(s, 0, PreBlock, PreLog) }
  function LinksParked(s: string): string { ReplaceAll(s, AnchorTag, LinkStash) }
  function LinkQueue(s: string): seq<string> { LogFrom(s, 0, AnchorTag, LinkLog) }

  /** The whole conversion, stage by stage, as a function of the text. */
  function Converted(text: string): string
  {
    var t1 := Fenced(text);
    var t2 := PreParked(t1);
    var t3 := LinksParked(t2);
    var t4 := MergeLists(Styled(t3));
    RestoreFrom(RestoreFrom(t4, 0, PrePlaceholder, PreQueue(t1)), 0, LinkPlaceholder, LinkQueue(t2))
  }

  /** `convertMarkdown`, with its two queues. */
  method ConvertMarkdown(text: string) returns (r: string)
    ensures r == Converted(text)
  {
    var preContents: seq<string> := [];
    var aContents: seq<string> := [];
    var t := Fenced(text);
    ghost var t1 := t;
    var pushed;
    t, pushed := Stash(t, PreBlock, PreStash, PreLog);
    preContents := preContents + pushed;
    assert t == PreParked(t1) && preContents == PreQueue(t1);
    ghost var t2 := t;
    t, pushed := Stash(t, AnchorTag, LinkStash, LinkLog);
    aContents := aContents + pushed;
    assert t == LinksParked(t2) && aContents == LinkQueue(t2);
    ghost var t3 := t;
    t := Bold(t);
    t := Italic(t);
    t := Crossed(t);
    t := Bullets(t);
    t := Numbered(t);
    t := Headings(t);
    assert t == Styled(t3);
    t := ReplaceAll(t, Adjacent("</ul>", "<ul>"), Const(""));
    t := ReplaceAll(t, Adjacent("</ol>", "<ol>"), Const(""));
    assert t == MergeLists(Styled(t3));
    t, preContents := Restore(t, PrePlaceholder, preContents);
    t, aContents := Restore(t, LinkPlaceholder, aContents);
    r := t;
  }

  // ------------------------------------------------------------------ laws

  /** Neither placeholder overlaps itself, so restoring finds exactly the copies that were put in. */
  lemma PlaceholdersHaveNoBorder()
    ensures NoBorder(PrePlaceholder) && NoBorder(LinkPlaceholder)
  {
    PreHasNoBorder();
    LinkHasNoBorder();
  }

  lemma PreHasNoBorder()
    ensures NoBorder(PrePlaceholder)
  {
    var p := PrePlaceholder;
    forall d | 1 <= d < |p| ensures p[d..] != p[..|p| - d] {
      assert p[d..][0] != p[..|p| - d][0];
    }
  }

  lemma LinkHasNoBorder()
    ensures NoBorder(LinkPlaceholder)
  {
    var a := LinkPlaceholder;
    forall d | 1 <= d < 18 ensures a[d..] != a[..|a| - d] {
      assert a[d..][0] != a[..|a| - d][0];
    }
    assert a[18..][1] != a[..|a| - 18][1];
    forall d | 18 < d < |a| ensures a[d..] != a[..|a| - d] {
      assert a[d..][0] != a[..|a| - d][0];
    }
  }

  /** A callback that pushes the same string each time pushes it once per separator. */
  lemma {:induction false} LogConstRepeat(s: string, i: nat, find: Finder, c: string)
    requires i <= |s|
    ensures LogFrom(s, i, find, PushConst(c)) == Repeat(c, |SeparatorsFrom(s, i, find)|)
    decreases |s| - i
  {
    if i < |s| {
      var m := find(s, i);
      if Hit(s, i, m) {
        LogConstRepeat(s, i + m.value.len, find, c);
        var n := |SeparatorsFrom(s, i + m.value.len, find)|;
        assert Repeat(c, n + 1) == [c] + Repeat(c, n);
      } else {
        LogConstRepeat(s, i + 1, find, c);
      }
    }
  }

  /**
   * Parking a link's text and restoring it gives the tag back, and every text pushed
   * for the tag is used by it: a link whose text is not empty survives the conversion.
   */
  lemma LinkRoundTrip(m: string, c: string)
    requires c != [] && !Contains(m, LinkPlaceholder)
    ensures RestoreFrom(LinkStash(m, [c]), 0, LinkPlaceholder, LinkLog(m, [c])) == m
    ensures LeftFrom(LinkStash(m, [c]), 0, LinkPlaceholder, LinkLog(m, [c])) == []
  {
    var f := Literal(c);
    var ph := LinkPlaceholder;
    var pieces := SplitFrom(m, 0, 0, f);
    var n := |SeparatorsFrom(m, 0, f)|;
    assert LinkStash(m, [c]) == Weave(pieces, Repeat(ph, n)) by {
      ReplaceConstWeaves(m, 0, 0, f, ph);
      assert m[0..0] == [];
    }
    assert LinkLog(m, [c]) == Repeat(c, n) by {
      LogConstRepeat(m, 0, f, c);
    }
    assert |pieces| == n + 1 && Weave(pieces, Repeat(c, n)) == m by {
      SplitRejoin(m, 0, 0, f);
      LiteralSeparators(m, 0, c);
    }
    assert forall k :: 0 <= k < |pieces| ==> !Contains(pieces[k], ph) by {
      PiecesAvoid(m, 0, 0, f, ph);
    }
    PlaceholdersHaveNoBorder();
    RestoreWeave(pieces, ph, Repeat(c, n));
    DroppedAll(Repeat(c, n), n);
  }

  lemma {:induction false} DroppedAll(q: seq<string>, n: nat)
    requires |q| == n
    ensures Dropped(q, n) == []
    decreases n
  {
    if n > 0 {
      DroppedAll(Behind(q), n - 1);
    }
  }

  /** After the empty-pattern replacement, restoring empty texts gives the tag back. */
  lemma EmptyLinkRoundTrip(m: string)
    ensures RestoreFrom(LinkStash(m, [[]]), 0, LinkPlaceholder, LinkLog(m, [[]])) == m
    ensures LeftFrom(LinkStash(m, [[]]), 0, LinkPlaceholder, LinkLog(m, [[]])) == []
  {
    var ph := LinkPlaceholder;
    PlaceholdersHaveNoBorder();
    assert !Contains([], ph);
    RestoreStep([], ph, SpreadTail(m, ph), Repeat([], |m| + 1));
    assert Spread(m, ph) == [] + ph + SpreadTail(m, ph);
    assert Repeat([], |m| + 1) == [[]] + Repeat([], |m|);
    SpreadTailRoundTrip(m, ph);
  }

  lemma {:induction false} SpreadTailRoundTrip(m: string, ph: string)
    requires |ph| > 1 && NoBorder(ph)
    ensures RestoreFrom(SpreadTail(m, ph), 0, ph, Repeat([], |m|)) == m
    ensures LeftFrom(SpreadTail(m, ph), 0, ph, Repeat([], |m|)) == []
    decreases |m|
  {
    if m != [] {
      SpreadTailRoundTrip(m[1..], ph);
      var q := Repeat([], |m|);
      RepeatCons([], |m| - 1);
      assert q[1..] == Repeat([], |m| - 1);
      SpreadTailStep(m, ph, q);
    }
  }

  lemma SpreadTailStep(m: string, ph: string, q: seq<string>)
    requires m != [] && |ph| > 1 && NoBorder(ph) && q != [] && q[0] == []
    requires RestoreFrom(SpreadTail(m[1..], ph), 0, ph, q[1..]) == m[1..]
    requires LeftFrom(SpreadTail(m[1..], ph), 0, ph, q[1..]) == []
    ensures RestoreFrom(SpreadTail(m, ph), 0, ph, q) == m
    ensures LeftFrom(SpreadTail(m, ph), 0, ph, q) == []
  {
    var w := SpreadTail(m[1..], ph);
    RestoreOneChar(m[0], m[1..], ph, w, q);
    assert SpreadTail(m, ph) == [m[0]] + ph + w;
    assert [m[0]] + m[1..] == m;
  }

  /** A character followed by a placeholder that restores to nothing. */
  lemma RestoreOneChar(c: char, rest: string, ph: string, w: string, q: seq<string>)
    requires |ph| > 1 && NoBorder(ph) && q != [] && q[0] == []
    requires RestoreFrom(w, 0, ph, q[1..]) == rest && LeftFrom(w, 0, ph, q[1..]) == []
    ensures RestoreFrom([c] + ph + w, 0, ph, q) == [c] + rest
    ensures LeftFrom([c] + ph + w, 0, ph, q) == []
  {
    OneCharLacks(c, ph);
    RestoreStep([c], ph, w, q);
    assert Front(q) == [] && Behind(q) == q[1..];
    assert [c] + [] + rest == [c] + rest;
  }

  /** A placeholder longer than one character does not occur in a single character. */
  lemma OneCharLacks(c: char, ph: string)
    requires |ph| > 1
    ensures !Contains([c], ph)
  {
  }

  /** The parked block with its placeholder; its only `<br>` is the last one. */
  lemma ParkedPreBreak()
    ensures IndexOf("<pre>" + PrePlaceholder + "</pre><br>", Br) == Some(37)
  {
    var ph := PrePlaceholder;
    var x := "<pre>" + ph + "</pre><br>";
    assert |ph| == 26 && '<' !in ph;
    forall j | 0 <= j < 37 ensures !Occurs(x, Br, j) {
      assert x[j..j + 4][0] == x[j] && x[j..j + 4][1] == x[j + 1];
      if j < 5 {
        assert x[j] == "<pre>"[j] && x[j + 1] == ("<pre>" + ph)[j + 1];
      } else if j < 31 {
        assert x[j] == ph[j - 5];
      } else {
        assert x[j] == "</pre>"[j - 31] && x[j + 1] == "</pre><br>"[j - 30];
      }
    }
    assert x[37..41] == Br;
    FirstOccurrence(x, Br, 37, "");
  }

  /**
   * A code block followed by a line break, with no `</pre><br>` starting inside its
   * content, is found whole; its content is queued and the block is restored with its
   * content and without the `<br>` after it. Where the content first occurs does not
   * matter: only the parked shape depends on it (`PreBlockParked`).
   */
  lemma PreBlockRoundTrip(c: string)
    requires forall j :: 5 <= j < 5 + |c| ==> !At("<pre>" + c + "</pre><br>", j, "</pre><br>")
    ensures PreBlock("<pre>" + c + "</pre><br>", 0) == Some(Match(|c| + 15, [c]))
    ensures PreLog("<pre>" + c + "</pre><br>", [c]) == [c]
    ensures RestoreFrom(PreStash("<pre>" + c + "</pre><br>", [c]), 0, PrePlaceholder, [c]) == "<pre>" + c + "</pre>"
  {
    var m := "<pre>" + c + "</pre><br>";
    PreBlockMatch(c);
    assert Occurs(m, c, 5) by { assert m[5..5 + |c|] == c; }
    var k := IndexOf(m, c);
    assert k.Some? && k.value <= 5;
    if k.value == 5 {
      PreBlockParked(c);
      PreBlockRestored(c);
    } else {
      PreRestoredEarly(c, k.value);
    }
  }

  lemma PreBlockMatch(c: string)
    requires forall j :: 5 <= j < 5 + |c| ==> !At("<pre>" + c + "</pre><br>", j, "</pre><br>")
    ensures PreBlock("<pre>" + c + "</pre><br>", 0) == Some(Match(|c| + 15, [c]))
  {
    var m := "<pre>" + c + "</pre><br>";
    assert At(m, 0, "<pre>") by { assert m[0..5] == "<pre>"; }
    assert m[5 + |c|..] == "</pre><br>";
    LazyToFirst(m, 5, "</pre><br>", true, 5 + |c|);
    assert m[5..5 + |c|] == c;
  }

  /** When the content first occurs as the content, the block is parked as its tags around the placeholder. */
  lemma PreBlockParked(c: string)
    requires forall q :: 0 <= q < 5 ==> !Occurs("<pre>" + c + "</pre><br>", c, q)
    ensures PreStash("<pre>" + c + "</pre><br>", [c]) == "<pre>" + PrePlaceholder + "</pre>"
  {
    var m := "<pre>" + c + "</pre><br>";
    var ph := PrePlaceholder;
    assert Occurs(m, c, 5) by { assert m[5..5 + |c|] == c; }
    FirstOccurrence(m, c, 5, ph);
    assert m[..5] + ph + m[5 + |c|..] == "<pre>" + ph + "</pre><br>";
    ParkedPreBreak();
    var x := "<pre>" + ph + "</pre><br>";
    assert ReplaceFirst(x, Br, "") == "<pre>" + ph + "</pre>" by {
      assert x[..37] + "" + x[41..] == "<pre>" + ph + "</pre>";
    }
  }

  lemma PreBlockRestored(c: string)
    ensures RestoreFrom("<pre>" + PrePlaceholder + "</pre>", 0, PrePlaceholder, [c]) == "<pre>" + c + "</pre>"
  {
    var ph := PrePlaceholder;
    PlaceholdersHaveNoBorder();
    assert !Contains("<pre>", ph);
    RestoreStep("<pre>", ph, "</pre>", [c]);
    assert !Contains("</pre>", ph);
    RestoreNothing("</pre>", ph, []);
  }

  /** A character of the `<pre>` and `</pre>` tags. */
  predicate TagChar(ch: char)
  {
    ch == '<' || ch == '/' || ch == 'p' || ch == 'r' || ch == 'e' || ch == '>'
  }

  predicate TagChars(s: string)
  {
    forall k :: 0 <= k < |s| ==> TagChar(s[k])
  }

  /**
   * Content that already occurs inside the opening `<pre>` repeats the tail of that tag,
   * so it is made of tag characters only.
   */
  lemma {:induction false} EarlyContentChar(c: string, q: nat, k: nat)
    requires q < 5 && Occurs("<pre>" + c + "</pre><br>", c, q) && k < |c|
    ensures TagChar(c[k])
    decreases k
  {
    var m := "<pre>" + c + "</pre><br>";
    assert c[k] == m[q + k] by { assert m[q..q + |c|][k] == m[q + k]; }
    if q + k < 5 {
      assert m[q + k] == "<pre>"[q + k];
    } else {
      assert m[q + k] == c[q + k - 5];
      EarlyContentChar(c, q, q + k - 5);
    }
  }

  lemma EarlyContentIsTags(c: string, q: nat)
    requires q < 5 && Occurs("<pre>" + c + "</pre><br>", c, q)
    ensures TagChars("<pre>" + c + "</pre>")
  {
    var y := "<pre>" + c + "</pre>";
    forall k | 0 <= k < |y| ensures TagChar(y[k]) {
      if k < 5 {
        assert y[k] == "<pre>"[k];
      } else if k < 5 + |c| {
        assert y[k] == c[k - 5];
        EarlyContentChar(c, q, k - 5);
      } else {
        assert y[k] == "</pre>"[k - 5 - |c|];
      }
    }
  }

  /** The `<pre>` placeholder holds a digit, which tags lack. */
  lemma TagsLackPlaceholder(s: string)
    requires TagChars(s)
    ensures !Contains(s, PrePlaceholder)
  {
    var ph := PrePlaceholder;
    forall k: nat | k <= |s| ensures !Occurs(s, ph, k) {
      if k + |ph| <= |s| {
        assert s[k..k + |ph|][4] == s[k + 4];
        assert !TagChar(ph[4]);
      }
    }
  }

  /** Between tag characters the placeholder brings no `<br>`: the first one is the one after them. */
  lemma BreakOnlyAtEnd(a: string, b: string)
    requires TagChars(a) && TagChars(b)
    ensures IndexOf(a + PrePlaceholder + b + Br, Br) == Some(|a| + |PrePlaceholder| + |b|)
  {
    var x := a + PrePlaceholder + b + Br;
    var n := |a| + |PrePlaceholder| + |b|;
    forall j | 0 <= j < n ensures !Occurs(x, Br, j) {
      NoBreakBefore(a, b, j);
    }
    assert x[n..n + 4] == Br;
    FirstOccurrence(x, Br, n, "");
  }

  lemma NoBreakBefore(a: string, b: string, j: nat)
    requires TagChars(a) && TagChars(b) && j < |a| + |PrePlaceholder| + |b|
    ensures !Occurs(a + PrePlaceholder + b + Br, Br, j)
  {
    var ph := PrePlaceholder;
    var x := a + ph + b + Br;
    var n := |a| + |ph| + |b|;
    assert x[j..j + 4][0] == x[j] && x[j..j + 4][1] == x[j + 1];
    if j < |a| {
      if j + 1 < |a| {
        assert x[j + 1] == a[j + 1];
      } else {
        assert x[j + 1] == ph[0];
      }
    } else if j < |a| + |ph| {
      assert x[j] == ph[j - |a|];
      assert '<' !in ph;
    } else if j + 1 < n {
      assert x[j + 1] == b[j + 1 - |a| - |ph|];
    } else {
      assert x[j + 1] == Br[0];
    }
  }

  /**
   * Content that first occurs inside the opening tag is made of tag characters: the
   * placeholder goes there instead, the only `<br>` is still the last one, and
   * restoring puts the content back where it was taken from.
   */
  lemma PreRestoredEarly(c: string, q: nat)
    requires q < 5 && IndexOf("<pre>" + c + "</pre><br>", c) == Some(q)
    ensures RestoreFrom(PreStash("<pre>" + c + "</pre><br>", [c]), 0, PrePlaceholder, [c]) == "<pre>" + c + "</pre>"
  {
    var y := "<pre>" + c + "</pre>";
    var a := y[..q];
    var b := y[q + |c|..];
    EarlyContentIsTags(c, q);
    EarlySplit(c, q, y, a, b);
    EarlyParked(c, q, y, a, b);
    EarlyRestored(a, b, c);
  }

  lemma EarlySplit(c: string, q: nat, y: string, a: string, b: string)
    requires q < 5 && Occurs("<pre>" + c + "</pre><br>", c, q)
    requires y == "<pre>" + c + "</pre>" && a == y[..q] && b == y[q + |c|..]
    ensures y == a + c + b
  {
    var m := "<pre>" + c + "</pre><br>";
    assert m[q..q + |c|] == c;
    assert y[q..q + |c|] == m[q..q + |c|];
  }

  lemma EarlyParked(c: string, q: nat, y: string, a: string, b: string)
    requires q < 5 && IndexOf("<pre>" + c + "</pre><br>", c) == Some(q) && TagChars(y)
    requires y == "<pre>" + c + "</pre>" && a == y[..q] && b == y[q + |c|..]
    ensures PreStash("<pre>" + c + "</pre><br>", [c]) == a + PrePlaceholder + b
  {
    EarlyFirst(c, q, y, a, b);
    assert TagChars(a) && TagChars(b);
    EarlyBreak(a, b);
  }

  lemma EarlyFirst(c: string, q: nat, y: string, a: string, b: string)
    requires q < 5 && IndexOf("<pre>" + c + "</pre><br>", c) == Some(q)
    requires y == "<pre>" + c + "</pre>" && a == y[..q] && b == y[q + |c|..]
    ensures ReplaceFirst("<pre>" + c + "</pre><br>", c, PrePlaceholder) == a + PrePlaceholder + b + Br
  {
    var m := "<pre>" + c + "</pre><br>";
    assert m == y + Br;
    assert m[..q] == a;
    assert m[q + |c|..] == b + Br;
  }

  lemma EarlyBreak(a: string, b: string)
    requires TagChars(a) && TagChars(b)
    ensures ReplaceFirst(a + PrePlaceholder + b + Br, Br, "") == a + PrePlaceholder + b
  {
    var x := a + PrePlaceholder + b + Br;
    var n := |a| + |PrePlaceholder| + |b|;
    BreakOnlyAtEnd(a, b);
    assert x[..n] == a + PrePlaceholder + b;
    assert x[n + 4..] == [];
  }

  lemma EarlyRestored(a: string, b: string, c: string)
    requires TagChars(a) && TagChars(b)
    ensures RestoreFrom(a + PrePlaceholder + b, 0, PrePlaceholder, [c]) == a + c + b
  {
    var ph := PrePlaceholder;
    PlaceholdersHaveNoBorder();
    TagsLackPlaceholder(a);
    TagsLackPlaceholder(b);
    RestoreStep(a, ph, b, [c]);
    RestoreNothing(b, ph, []);
  }

  /** A block of two lines, whose content holds the `<br>` of its line end, comes back whole. */
  lemma MultiLineBlockRoundTrip(c: string)
    requires c == "x<br>y"
    ensures RestoreFrom(PreStash("<pre>" + c + "</pre><br>", [c]), 0, PrePlaceholder, [c]) == "<pre>" + c + "</pre>"
  {
    MultiLineOpen(c);
    PreBlockRoundTrip(c);
  }

  lemma MultiLineOpen(c: string)
    requires c == "x<br>y"
    ensures forall j :: 5 <= j < 5 + |c| ==> !At("<pre>" + c + "</pre><br>", j, "</pre><br>")
  {
    var m := "<pre>" + c + "</pre><br>";
    assert forall k :: 0 <= k < |c| ==> c[k] != '/';
    forall j | 5 <= j < 5 + |c| ensures !At(m, j, "</pre><br>") {
      if j + 10 <= |m| {
        assert m[j..j + 10][1] == m[j + 1];
        if j + 1 < 5 + |c| {
          assert m[j + 1] == c[j - 4];
        } else {
          assert m[j + 1] == '<';
        }
      }
    }
  }

  // ------------------------------------------------------------------ merging lists

  /** The two list kinds: the tag that closes one list and the tag that opens the next. */
  predicate ListTags(close: string, open: string)
  {
    (close == "</ul>" && open == "<ul>") || (close == "</ol>" && open == "<ol>")
  }

  /** A piece of markup that ends with a tag's `>`. */
  predicate EndsTag(p: string)
  {
    p != [] && p[|p| - 1] == '>'
  }

  lemma AdjacentApplies(close: string, open: string, s: string, i: nat)
    ensures Adjacent(close, open)(s, i) == AdjacentAt(close, open, s, i)
  {
  }

  /** The merge patterns only look forward. */
  lemma AdjacentLocal(close: string, open: string, a: string, b: string, t: nat)
    ensures AdjacentAt(close, open, a + b, |a| + t) == AdjacentAt(close, open, b, t)
  {
    AdjacentParts(close, open, a, b, t);
    AdjacentAlike(close, open, a + b, |a| + t, b, t);
  }

  lemma AdjacentParts(close: string, open: string, a: string, b: string, t: nat)
    ensures At(a + b, |a| + t, close) == At(b, t, close)
    ensures RunLength(a + b, |a| + t + |close|, IsSpace) == RunLength(b, t + |close|, IsSpace)
    ensures At(a + b, |a| + t + |close| + RunLength(b, t + |close|, IsSpace), open)
            == At(b, t + |close| + RunLength(b, t + |close|, IsSpace), open)
  {
    AtShift(a, b, t, close);
    RunShift(a, b, t + |close|);
    AtShift(a, b, t + |close| + RunLength(b, t + |close|, IsSpace), open);
    assert |a| + (t + |close| + RunLength(b, t + |close|, IsSpace))
           == |a| + t + |close| + RunLength(b, t + |close|, IsSpace);
  }

  lemma RunShift(a: string, b: string, u: nat)
    ensures RunLength(a + b, |a| + u, IsSpace) == RunLength(b, u, IsSpace)
  {
    RunLengthShift(a, b, u, IsSpace);
  }

  /** The merge pattern depends only on the closing tag, the run of white space and the opening tag. */
  lemma AdjacentAlike(close: string, open: string, x: string, i: nat, y: string, j: nat)
    requires At(x, i, close) == At(y, j, close)
    requires RunLength(x, i + |close|, IsSpace) == RunLength(y, j + |close|, IsSpace)
    requires At(x, i + |close| + RunLength(y, j + |close|, IsSpace), open)
             == At(y, j + |close| + RunLength(y, j + |close|, IsSpace), open)
    ensures AdjacentAt(close, open, x, i) == AdjacentAt(close, open, y, j)
  {
  }

  /** A closing tag cannot begin inside a piece that ends with `>` and does not contain it. */
  lemma NoCrossing(p: string, rest: string, t: string, j: nat)
    requires EndsTag(p) && t != [] && '>' !in t[..|t| - 1] && !Contains(p, t) && j < |p|
    ensures !At(p + rest, j, t)
  {
    var x := p + rest;
    if j + |t| <= |p| {
      assert !Occurs(p, t, j);
      assert x[j..j + |t|] == p[j..j + |t|];
    } else if j + |t| <= |x| {
      var d := |p| - 1 - j;
      assert t[..|t| - 1][d] == t[d];
      assert x[j..j + |t|][d] == x[|p| - 1] == '>';
    }
  }

  lemma AdjacentShifts(close: string, open: string, p: string, w: string)
    ensures forall t :: 0 <= t < |w| ==> Adjacent(close, open)(p + w, |p| + t) == Adjacent(close, open)(w, t)
  {
    forall t | 0 <= t < |w| ensures Adjacent(close, open)(p + w, |p| + t) == Adjacent(close, open)(w, t) {
      AdjacentShiftAt(close, open, p, w, t);
    }
  }

  lemma AdjacentShiftAt(close: string, open: string, p: string, w: string, t: nat)
    ensures Adjacent(close, open)(p + w, |p| + t) == Adjacent(close, open)(w, t)
  {
    AdjacentLocal(close, open, p, w, t);
    AdjacentApplies(close, open, p + w, |p| + t);
    AdjacentApplies(close, open, w, t);
  }

  lemma NoMergeInside(p: string, w: string, close: string, open: string)
    requires ListTags(close, open) && EndsTag(p) && !Contains(p, close)
    ensures forall j :: 0 <= j < |p| ==> !Hit(p + w, j, Adjacent(close, open)(p + w, j))
  {
    forall j | 0 <= j < |p| ensures !Hit(p + w, j, Adjacent(close, open)(p + w, j)) {
      NoCrossing(p, w, close, j);
      AdjacentApplies(close, open, p + w, j);
    }
  }

  /** A piece ending with `>` that holds no closing tag is copied by a merge pass. */
  lemma PrefixKept(p: string, w: string, close: string, open: string)
    requires ListTags(close, open) && EndsTag(p) && !Contains(p, close)
    ensures ReplaceAll(p + w, Adjacent(close, open), Const("")) == p + ReplaceAll(w, Adjacent(close, open), Const(""))
  {
    PrefixCopied(p, w, close, open);
    SuffixAlone(p, w, close, open);
  }

  lemma PrefixCopied(p: string, w: string, close: string, open: string)
    requires ListTags(close, open) && EndsTag(p) && !Contains(p, close)
    ensures ReplaceAll(p + w, Adjacent(close, open), Const(""))
            == p + ReplaceFrom(p + w, |p|, Adjacent(close, open), Const(""))
  {
    NoMergeInside(p, w, close, open);
    ReplaceCopies(p + w, 0, |p|, Adjacent(close, open), Const(""));
    assert (p + w)[0..|p|] == p;
  }

  /** After a prefix, a merge pass goes on as it would on the rest alone. */
  lemma SuffixAlone(p: string, w: string, close: string, open: string)
    ensures ReplaceFrom(p + w, |p|, Adjacent(close, open), Const(""))
            == ReplaceAll(w, Adjacent(close, open), Const(""))
  {
    AdjacentShifts(close, open, p, w);
    ReplaceShift(p, w, 0, Adjacent(close, open), Const(""));
  }

  /** A closing tag directly followed by an opening one disappears. */
  lemma MergeAtFront(w: string, close: string, open: string)
    requires ListTags(close, open)
    ensures ReplaceAll(close + open + w, Adjacent(close, open), Const("")) == ReplaceAll(w, Adjacent(close, open), Const(""))
  {
    var y := close + open + w;
    MergeMatch(close, open, w);
    ReplaceHitAs(y, 0, Adjacent(close, open), Const(""), 9, [], "");
    SuffixAlone(close + open, w, close, open);
    assert "" + ReplaceAll(w, Adjacent(close, open), Const("")) == ReplaceAll(w, Adjacent(close, open), Const(""));
  }

  lemma MergeMatch(close: string, open: string, w: string)
    requires ListTags(close, open)
    ensures |close + open| == 9
    ensures Adjacent(close, open)(close + open + w, 0) == Some(Match(9, []))
  {
    var y := close + open + w;
    assert |close| == 5 && |open| == 4;
    assert AdjacentAt(close, open, y, 0) == Some(Match(9, [])) by {
      assert y[..5] == close && y[5] == open[0] == '<';
      assert RunLength(y, 5, IsSpace) == 0;
      assert y[5..9] == open;
    }
    AdjacentApplies(close, open, y, 0);
  }

  lemma MergeStep(p: string, w: string, close: string, open: string)
    requires ListTags(close, open) && EndsTag(p) && !Contains(p, close)
    ensures ReplaceAll(p + close + open + w, Adjacent(close, open), Const(""))
            == p + ReplaceAll(w, Adjacent(close, open), Const(""))
  {
    AppendAssoc(p + close, open, w);
    AppendAssoc(p, close, open + w);
    AppendAssoc(close, open, w);
    PrefixKept(p, close + open + w, close, open);
    MergeAtFront(w, close, open);
  }

  /** The last list's closing tag, with nothing after it, stays. */
  lemma MergeLast(p: string, close: string, open: string)
    requires ListTags(close, open) && EndsTag(p) && !Contains(p, close)
    ensures ReplaceAll(p + close, Adjacent(close, open), Const("")) == p + close
  {
    var f := Adjacent(close, open);
    PrefixKept(p, close, close, open);
    forall j | 0 <= j < |close| ensures !Hit(close, j, f(close, j)) {
      assert !At(close, j + |close|, open);
    }
    ReplaceNoHit(close, 0, f, Const(""));
  }

  /** Items each wrapped in their own list: `<ul>item</ul><ul>item</ul>...`. */
  function Listed(items: seq<string>, open: string, close: string): string
  {
    if items == [] then [] else open + items[0] + close + Listed(items[1..], open, close)
  }

  /** The items hold no list tags of their own and end with a tag (`</li>`). */
  predicate PlainItems(items: seq<string>)
  {
    forall k :: 0 <= k < |items| ==> EndsTag(items[k]) && !Contains(items[k], "</ul>") && !Contains(items[k], "</ol>")
  }

  lemma TagFacts()
    ensures !Contains("<ul>", "</ul>") && !Contains("<ul>", "</ol>")
    ensures !Contains("<ol>", "</ul>") && !Contains("<ol>", "</ol>")
    ensures !Contains("</ul>", "</ol>") && !Contains("</ol>", "</ul>")
  {
    TooLong("<ul>", "</ul>");
    TooLong("<ul>", "</ol>");
    TooLong("<ol>", "</ul>");
    TooLong("<ol>", "</ol>");
    assert "</ul>"[2] != "</ol>"[2];
    assert !Occurs("</ul>", "</ol>", 0);
    assert !Occurs("</ol>", "</ul>", 0);
  }

  lemma {:induction false} MergeListed(items: seq<string>, close: string, open: string)
    requires ListTags(close, open) && |items| >= 1 && PlainItems(items)
    ensures ReplaceAll(items[0] + close + Listed(items[1..], open, close), Adjacent(close, open), Const(""))
            == Concat(items) + close
    decreases |items|
  {
    if |items| == 1 {
      MergeSingle(items, close, open);
    } else {
      assert PlainItems(items[1..]);
      MergeListed(items[1..], close, open);
      MergeListedStep(items, close, open);
    }
  }

  lemma MergeSingle(items: seq<string>, close: string, open: string)
    requires ListTags(close, open) && |items| == 1 && PlainItems(items)
    ensures ReplaceAll(items[0] + close + Listed(items[1..], open, close), Adjacent(close, open), Const(""))
            == Concat(items) + close
  {
    var p := items[0];
    MergeLast(p, close, open);
    assert items[1..] == [];
    assert Listed(items[1..], open, close) == [];
    assert p + close + [] == p + close;
    assert Concat(items) == p + Concat([]);
    assert p + [] == p;
  }

  lemma MergeListedStep(items: seq<string>, close: string, open: string)
    requires ListTags(close, open) && |items| >= 2 && PlainItems(items)
    requires ReplaceAll(items[1..][0] + close + Listed(items[1..][1..], open, close), Adjacent(close, open), Const(""))
             == Concat(items[1..]) + close
    ensures ReplaceAll(items[0] + close + Listed(items[1..], open, close), Adjacent(close, open), Const(""))
            == Concat(items) + close
  {
    var rest := items[1..];
    var w := rest[0] + close + Listed(rest[1..], open, close);
    ListedCons(items[0] + close, rest, open, close);
    MergeStep(items[0], w, close, open);
    AppendAssoc(items[0], Concat(rest), close);
  }

  /** Unfolding one wrapped item after a prefix. */
  lemma ListedCons(p: string, rest: seq<string>, open: string, close: string)
    requires rest != []
    ensures p + Listed(rest, open, close) == p + open + (rest[0] + close + Listed(rest[1..], open, close))
  {
    var t := Listed(rest[1..], open, close);
    assert Listed(rest, open, close) == open + rest[0] + close + t;
    AppendAssoc(open + rest[0], close, t);
    AppendAssoc(open, rest[0], close + t);
    AppendAssoc(rest[0], close, t);
    AppendAssoc(p, open, rest[0] + close + t);
  }

  /** A merge pass for the other kind of list changes nothing. */
  lemma {:induction false} ListedKept(items: seq<string>, o: string, c: string, close: string, open: string)
    requires ListTags(close, open) && ListTags(c, o) && close != c && PlainItems(items)
    ensures ReplaceAll(Listed(items, o, c), Adjacent(close, open), Const("")) == Listed(items, o, c)
    decreases |items|
  {
    if items == [] {
      assert Listed(items, o, c) == [];
    } else {
      assert PlainItems(items[1..]);
      ListedKept(items[1..], o, c, close, open);
      ListedKeptStep(items, o, c, close, open);
    }
  }

  lemma ListedKeptStep(items: seq<string>, o: string, c: string, close: string, open: string)
    requires ListTags(close, open) && ListTags(c, o) && close != c && PlainItems(items) && items != []
    requires ReplaceAll(Listed(items[1..], o, c), Adjacent(close, open), Const("")) == Listed(items[1..], o, c)
    ensures ReplaceAll(Listed(items, o, c), Adjacent(close, open), Const("")) == Listed(items, o, c)
  {
    assert EndsTag(o) && !Contains(o, close) && EndsTag(c) && !Contains(c, close) by { TagFacts(); }
    assert EndsTag(items[0]) && !Contains(items[0], close);
    var tail := Listed(items[1..], o, c);
    assert Listed(items, o, c) == o + items[0] + c + tail;
    AppendAssoc(o + items[0], c, tail);
    AppendAssoc(o, items[0], c + tail);
    PrefixKept(c, tail, close, open);
    PrefixKept(items[0], c + tail, close, open);
    PrefixKept(o, items[0] + (c + tail), close, open);
  }

  /** Merged items followed by a closing tag of the other kind are left alone. */
  lemma {:induction false} ConcatKept(items: seq<string>, tail: string, close: string, open: string)
    requires ListTags(close, open) && PlainItems(items) && EndsTag(tail) && !Contains(tail, close)
    ensures ReplaceAll(Concat(items) + tail, Adjacent(close, open), Const("")) == Concat(items) + tail
    decreases |items|
  {
    if items == [] {
      PrefixKept(tail, [], close, open);
      assert tail + [] == tail;
      assert ReplaceAll([], Adjacent(close, open), Const("")) == [];
      assert Concat(items) + tail == tail;
    } else {
      assert PlainItems(items[1..]);
      ConcatKept(items[1..], tail, close, open);
      ConcatKeptStep(items, tail, close, open);
    }
  }

  lemma ConcatKeptStep(items: seq<string>, tail: string, close: string, open: string)
    requires ListTags(close, open) && PlainItems(items) && items != []
    requires ReplaceAll(Concat(items[1..]) + tail, Adjacent(close, open), Const("")) == Concat(items[1..]) + tail
    ensures ReplaceAll(Concat(items) + tail, Adjacent(close, open), Const("")) == Concat(items) + tail
  {
    AppendAssoc(items[0], Concat(items[1..]), tail);
    assert !Contains(items[0], close) by { TagFacts(); }
    PrefixKept(items[0], Concat(items[1..]) + tail, close, open);
  }

  /**
   * Consecutive one-item bullet lists, as the list rule produces them, become one list
   * holding all the items in order; the pass for numbered lists changes nothing.
   */
  lemma BulletListsMerge(items: seq<string>)
    requires |items| >= 1 && PlainItems(items)
    ensures MergeLists(Listed(items, "<ul>", "</ul>")) == "<ul>" + Concat(items) + "</ul>"
  {
    BulletPass(items);
    NumberedPassKeeps(items);
  }

  lemma BulletPass(items: seq<string>)
    requires |items| >= 1 && PlainItems(items)
    ensures MergeBullets(Listed(items, "<ul>", "</ul>")) == "<ul>" + Concat(items) + "</ul>"
  {
    ListedCons([], items, "<ul>", "</ul>");
    assert [] + Listed(items, "<ul>", "</ul>") == Listed(items, "<ul>", "</ul>");
    assert [] + "<ul>" == "<ul>";
    TagFacts();
    PrefixKept("<ul>", items[0] + "</ul>" + Listed(items[1..], "<ul>", "</ul>"), "</ul>", "<ul>");
    MergeListed(items, "</ul>", "<ul>");
    AppendAssoc("<ul>", Concat(items), "</ul>");
  }

  lemma NumberedPassKeeps(items: seq<string>)
    requires |items| >= 1 && PlainItems(items)
    ensures MergeNumbered("<ul>" + Concat(items) + "</ul>") == "<ul>" + Concat(items) + "</ul>"
  {
    TagFacts();
    ConcatKept(items, "</ul>", "</ol>", "<ol>");
    PrefixKept("<ul>", Concat(items) + "</ul>", "</ol>", "<ol>");
    AppendAssoc("<ul>", Concat(items), "</ul>");
  }

  /** The same for numbered lists. */
  lemma NumberedListsMerge(items: seq<string>)
    requires |items| >= 1 && PlainItems(items)
    ensures MergeLists(Listed(items, "<ol>", "</ol>")) == "<ol>" + Concat(items) + "</ol>"
  {
    TagFacts();
    ListedKept(items, "<ol>", "</ol>", "</ul>", "<ul>");
    NumberedPass(items);
  }

  lemma NumberedPass(items: seq<string>)
    requires |items| >= 1 && PlainItems(items)
    ensures MergeNumbered(Listed(items, "<ol>", "</ol>")) == "<ol>" + Concat(items) + "</ol>"
  {
    ListedCons([], items, "<ol>", "</ol>");
    assert [] + Listed(items, "<ol>", "</ol>") == Listed(items, "<ol>", "</ol>");
    assert [] + "<ol>" == "<ol>";
    TagFacts();
    PrefixKept("<ol>", items[0] + "</ol>" + Listed(items[1..], "<ol>", "</ol>"), "</ol>", "<ol>");
    MergeListed(items, "</ol>", "<ol>");
    AppendAssoc("<ol>", Concat(items), "</ol>");
  }


  // ------------------------------------------------------------------ plain text

  /** A character some rule starts with: `&` of an entity, `<` of a tag, a style marker, a dash or a digit. */
  predicate Marked(c: char)
  {
    c == '&' || c == '<' || c == '*' || c == '_' || c == '~' || c == '-' || IsDigit(c)
  }

  predicate Plain(s: string)
  {
    forall j :: 0 <= j < |s| ==> !Marked(s[j])
  }

  /** A pass whose matches all start with a marked character leaves plain text alone and pushes nothing. */
  lemma QuietPass(s: string, find: Finder, render: Render, log: Log)
    requires Plain(s)
    requires forall j :: 0 <= j < |s| && find(s, j).Some? ==> Marked(s[j])
    ensures ReplaceAll(s, find, render) == s
    ensures LogFrom(s, 0, find, log) == []
  {
    ReplaceNoHit(s, 0, find, render);
    LogNoHit(s, 0, find, log);
  }

  lemma CodeNeedsMarks(s: string)
    ensures forall j :: 0 <= j < |s| && FencedCode(s, j).Some? ==> Marked(s[j])
    ensures forall j :: 0 <= j < |s| && PreBlock(s, j).Some? ==> Marked(s[j])
    ensures forall j :: 0 <= j < |s| && AnchorTag(s, j).Some? ==> Marked(s[j])
  {
    forall j | 0 <= j < |s| && FencedCode(s, j).Some? ensures Marked(s[j]) {
      assert s[j..j + |Fence|][0] == s[j];
    }
    forall j | 0 <= j < |s| && PreBlock(s, j).Some? ensures Marked(s[j]) {
      assert s[j..j + 5][0] == s[j];
    }
    forall j | 0 <= j < |s| && AnchorTag(s, j).Some? ensures Marked(s[j]) {
      assert s[j..j + 2][0] == s[j];
    }
  }

  lemma StylesNeedMarks(s: string, d: char)
    requires d == '*' || d == '_' || d == '~'
    ensures forall j :: 0 <= j < |s| && Delimited(d)(s, j).Some? ==> Marked(s[j])
  {
  }

  /** A list item starts with `&nbsp;`, the dash or the digit. */
  lemma ItemsNeedMarks(s: string)
    ensures forall j :: 0 <= j < |s| && BulletItem(s, j).Some? ==> Marked(s[j])
    ensures forall j :: 0 <= j < |s| && NumberedItem(s, j).Some? ==> Marked(s[j])
  {
    forall j | 0 <= j < |s| && BulletItem(s, j).Some? ensures Marked(s[j]) {
      BulletNeedsMark(s, j);
    }
    forall j | 0 <= j < |s| && NumberedItem(s, j).Some? ensures Marked(s[j]) {
      NumberedNeedsMark(s, j);
    }
  }

  /** A run of `&nbsp;` opens with `&`. */
  lemma NbspOpens(s: string, j: nat)
    requires j < |s| && NbspWidth(s, j) > 0
    ensures s[j] == '&'
  {
    assert s[j..j + |Nbsp|][0] == s[j];
  }

  lemma BulletNeedsMark(s: string, j: nat)
    requires j < |s| && BulletItem(s, j).Some?
    ensures Marked(s[j])
  {
    if NbspWidth(s, j) > 0 {
      NbspOpens(s, j);
    } else {
      assert s[j] == '-';
    }
  }

  lemma NumberedNeedsMark(s: string, j: nat)
    requires j < |s| && NumberedItem(s, j).Some?
    ensures Marked(s[j])
  {
    if NbspWidth(s, j) > 0 {
      NbspOpens(s, j);
    } else {
      assert IsDigit(s[j]);
    }
  }

  lemma HeadingsNeedMarks(s: string)
    ensures forall j :: 0 <= j < |s| && Heading(s, j).Some? ==> Marked(s[j])
    ensures forall j :: 0 <= j < |s| && Adjacent("</ul>", "<ul>")(s, j).Some? ==> Marked(s[j])
    ensures forall j :: 0 <= j < |s| && Adjacent("</ol>", "<ol>")(s, j).Some? ==> Marked(s[j])
  {
    forall j | 0 <= j < |s| && Heading(s, j).Some? ensures Marked(s[j]) {
      if HeadingMark(s, j) {
        assert s[j..j + |Hash|][0] == s[j];
      } else {
        assert s[j..j + |Br|][0] == s[j];
      }
    }
    forall j | 0 <= j < |s| && Adjacent("</ul>", "<ul>")(s, j).Some? ensures Marked(s[j]) {
      AdjacentApplies("</ul>", "<ul>", s, j);
      assert s[j..j + 5][0] == s[j];
    }
    forall j | 0 <= j < |s| && Adjacent("</ol>", "<ol>")(s, j).Some? ensures Marked(s[j]) {
      AdjacentApplies("</ol>", "<ol>", s, j);
      assert s[j..j + 5][0] == s[j];
    }
  }

  /** Both placeholders hold a digit, which plain text lacks. */
  lemma PlainLacksPlaceholders(s: string)
    requires Plain(s)
    ensures !Contains(s, PrePlaceholder) && !Contains(s, LinkPlaceholder)
  {
    forall k: nat | k <= |s| ensures !Occurs(s, PrePlaceholder, k) && !Occurs(s, LinkPlaceholder, k) {
      if k + |PrePlaceholder| <= |s| {
        assert s[k..k + |PrePlaceholder|][4] == s[k + 4];
        assert IsDigit(PrePlaceholder[4]);
      }
      if k + |LinkPlaceholder| <= |s| {
        assert s[k..k + |LinkPlaceholder|][2] == s[k + 2];
        assert IsDigit(LinkPlaceholder[2]);
      }
    }
  }

  lemma StyledPlain(s: string)
    requires Plain(s)
    ensures MergeLists(Styled(s)) == s
  {
    var keep: Log := PushConst([]);
    StylesNeedMarks(s, '*');
    QuietPass(s, Delimited('*'), Tagged("strong"), keep);
    StylesNeedMarks(s, '_');
    QuietPass(s, Delimited('_'), Tagged("em"), keep);
    StylesNeedMarks(s, '~');
    QuietPass(s, Delimited('~'), Tagged("s"), keep);
    ItemsNeedMarks(s);
    QuietPass(s, BulletItem, BulletRender, keep);
    QuietPass(s, NumberedItem, NumberedRender, keep);
    HeadingsNeedMarks(s);
    QuietPass(s, Heading, HeadingRender, keep);
    QuietPass(s, Adjacent("</ul>", "<ul>"), Const(""), keep);
    QuietPass(s, Adjacent("</ol>", "<ol>"), Const(""), keep);
  }

  /** Text with no character any rule starts with comes out of the conversion unchanged. */
  lemma PlainUnchanged(s: string)
    requires Plain(s)
    ensures Converted(s) == s
  {
    CodeNeedsMarks(s);
    QuietPass(s, FencedCode, PreWrap, PreLog);
    QuietPass(s, PreBlock, PreStash, PreLog);
    QuietPass(s, AnchorTag, LinkStash, LinkLog);
    StyledPlain(s);
    PlainLacksPlaceholders(s);
    PlaceholdersHaveNoBorder();
    RestoreNothing(s, PrePlaceholder, []);
    RestoreNothing(s, LinkPlaceholder, []);
  }

  // ------------------------------------------------------------------ single rules

  /** The styled run stops at the first closing marker when nothing before it stops it. */
  lemma {:induction false} InlineRunTo(s: string, k: nat, e: nat, d: char)
    requires k <= e < |s| && s[e] == d
    requires forall j :: k <= j < e ==> s[j] != d && !At(s, j, Br)
    ensures InlineRun(s, k, d) == e - k
    decreases e - k
  {
    if k < e {
      InlineRunTo(s, k + 1, e, d);
    }
  }

  /** A line with no `<br>` that sits between two markers of a style is wrapped in that style's tag. */
  lemma StyleWraps(d: char, tag: string, x: string)
    requires d == '*' || d == '_' || d == '~'
    requires d !in x && !Contains(x, Br)
    ensures ReplaceAll([d] + x + [d], Delimited(d), Tagged(tag)) == "<" + tag + ">" + x + "</" + tag + ">"
  {
    var s := [d] + x + [d];
    StyleMatch(d, x);
    ReplaceHitAs(s, 0, Delimited(d), Tagged(tag), |s|, [x], "<" + tag + ">" + x + "</" + tag + ">");
    assert ReplaceFrom(s, |s|, Delimited(d), Tagged(tag)) == [];
  }

  /** The pattern matches the whole marked line, and its group is the line. */
  lemma StyleMatch(d: char, x: string)
    requires d == '*' || d == '_' || d == '~'
    requires d !in x && !Contains(x, Br)
    ensures Delimited(d)([d] + x + [d], 0) == Some(Match(|x| + 2, [x]))
  {
    var s := [d] + x + [d];
    StyleInner(d, x);
    assert s[1..|x| + 1] == x;
  }

  /** Inside the marked line, the styled run goes up to the closing marker. */
  lemma StyleInner(d: char, x: string)
    requires d == '*' || d == '_' || d == '~'
    requires d !in x && !Contains(x, Br)
    ensures InlineRun([d] + x + [d], 1, d) == |x|
  {
    var s := [d] + x + [d];
    forall j | 1 <= j < |x| + 1 ensures s[j] != d && !At(s, j, Br) {
      InnerChar(d, x, j);
    }
    InlineRunTo(s, 1, |x| + 1, d);
  }

  lemma InnerChar(d: char, x: string, j: nat)
    requires d == '*' || d == '_' || d == '~'
    requires d !in x && !Contains(x, Br) && 1 <= j < |x| + 1
    ensures ([d] + x + [d])[j] != d && !At([d] + x + [d], j, Br)
  {
    var s := [d] + x + [d];
    assert s[j] == x[j - 1];
    if j + 4 <= |x| + 1 {
      assert s[j..j + 4] == x[j - 1..j + 3];
      assert !Occurs(x, Br, j - 1);
    } else if j + 4 <= |s| {
      var q := |x| + 1 - j;
      assert s[|x| + 1] == d;
      assert s[j..j + 4][q] == s[j + q] == d;
      assert Br[q] != d;
    }
  }

  /** `n` non-breaking spaces, the indentation leading spaces were turned into. */
  function Indent(n: nat): string
  {
    if n == 0 then [] else Nbsp + Indent(n - 1)
  }

  lemma {:induction false} NbspWidthShift(a: string, b: string, j: nat)
    ensures NbspWidth(a + b, |a| + j) == NbspWidth(b, j)
    decreases |b| - j
  {
    AtShift(a, b, j, Nbsp);
    if j < |b| && At(b, j, Nbsp) {
      NbspWidthShift(a, b, j + |Nbsp|);
    }
  }

  /** The indentation is counted whole, and no further. */
  lemma {:induction false} IndentRun(n: nat, w: string)
    requires !At(w, 0, Nbsp)
    ensures NbspWidth(Indent(n) + w, 0) == |Indent(n)|
    decreases n
  {
    if n == 0 {
      assert Indent(n) + w == w;
    } else {
      var rest := Indent(n - 1) + w;
      assert Indent(n) + w == Nbsp + rest;
      IndentRun(n - 1, w);
      NbspWidthShift(Nbsp, rest, 0);
    }
  }

  /** Every `&nbsp;` of the indentation is one separator. */
  lemma {:induction false} IndentCount(n: nat, w: string)
    ensures NbspCount(Indent(n) + w) == n + NbspCount(w)
    decreases n
  {
    if n == 0 {
      assert Indent(n) + w == w;
    } else {
      IndentCount(n - 1, w);
      IndentCountStep(n, w, Indent(n - 1) + w);
    }
  }

  lemma IndentCountStep(n: nat, w: string, v: string)
    requires n > 0 && v == Indent(n - 1) + w
    requires NbspCount(v) == n - 1 + NbspCount(w)
    ensures NbspCount(Indent(n) + w) == n + NbspCount(w)
  {
    AppendAssoc(Nbsp, Indent(n - 1), w);
    assert Indent(n) + w == Nbsp + v;
    SeparatorsAtFront(Nbsp, v);
  }

  /** The item text runs to the end of a line with no line break in it. */
  lemma {:induction false} LineEndAtEnd(s: string, k: nat)
    requires k <= |s|
    requires forall j :: k <= j < |s| ==> !IsLineTerminator(s[j]) && !At(s, j, Br)
    ensures LineEnd(s, k) == |s|
    decreases |s| - k
  {
    if k < |s| {
      LineEndAtEnd(s, k + 1);
    }
  }

  /** An item text without line breaks or line terminators, ready for the list rules. */
  predicate ItemText(x: string)
  {
    (forall j :: 0 <= j < |x| ==> !IsLineTerminator(x[j])) && !Contains(x, Br) && !Contains(x, Nbsp)
  }

  lemma ItemTextQuiet(p: string, x: string)
    requires ItemText(x)
    ensures forall j :: |p| <= j < |p + x| ==> !IsLineTerminator((p + x)[j]) && !At(p + x, j, Br) && !At(p + x, j, Nbsp)
  {
    forall j | |p| <= j < |p + x|
      ensures !IsLineTerminator((p + x)[j]) && !At(p + x, j, Br) && !At(p + x, j, Nbsp)
    {
      assert (p + x)[j] == x[j - |p|];
      AtShift(p, x, j - |p|, Br);
      AtShift(p, x, j - |p|, Nbsp);
      assert !Occurs(x, Br, j - |p|) && !Occurs(x, Nbsp, j - |p|);
    }
  }

  lemma BulletWhole(s: string, k: nat)
    requires k == NbspWidth(s, 0) && k + 1 < |s| && s[k] == '-' && IsSpace(s[k + 1])
    requires LineEnd(s, k + 2) == |s|
    ensures BulletItem(s, 0) == Some(Match(|s|, [s[k + 2..]]))
  {
    assert ItemStart(s, 0);
    assert EndLength(s, |s|) == 0;
    assert s[k + 2..LineEnd(s, k + 2)] == s[k + 2..];
  }

  /** The whole indented line is one bullet item. */
  lemma BulletMatch(n: nat, x: string)
    requires ItemText(x)
    ensures BulletItem(Indent(n) + "- " + x, 0) == Some(Match(|Indent(n) + "- " + x|, [x]))
  {
    var s := Indent(n) + "- " + x;
    var k := |Indent(n)|;
    BulletMargin(n, x, s, k);
    BulletBody(n, x, s, k);
    BulletWhole(s, k);
  }

  /** The indentation is `n` runs of `&nbsp;`, followed by the dash and a space. */
  lemma BulletMargin(n: nat, x: string, s: string, k: nat)
    requires s == Indent(n) + "- " + x && k == |Indent(n)|
    ensures k == NbspWidth(s, 0) && k + 1 < |s| && s[k] == '-' && IsSpace(s[k + 1])
  {
    var w := "- " + x;
    assert s == Indent(n) + w;
    assert !At(w, 0, Nbsp) by {
      if |Nbsp| <= |w| { assert w[0..|Nbsp|][0] == w[0] == '-'; }
    }
    IndentRun(n, w);
    assert s[k] == w[0] && s[k + 1] == w[1];
  }

  /** After the dash and the space, the item text runs to the end. */
  lemma BulletBody(n: nat, x: string, s: string, k: nat)
    requires ItemText(x) && s == Indent(n) + "- " + x && k == |Indent(n)|
    ensures k + 2 <= |s| && LineEnd(s, k + 2) == |s| && s[k + 2..] == x
  {
    ItemTextQuiet(Indent(n) + "- ", x);
    LineEndAtEnd(s, k + 2);
  }

  /** The margin counts exactly the indentation. */
  lemma BulletIndentCount(n: nat, x: string)
    requires ItemText(x)
    ensures NbspCount(Indent(n) + "- " + x) == n
  {
    var w := "- " + x;
    assert Indent(n) + w == Indent(n) + "- " + x;
    IndentCount(n, w);
    ItemTextQuiet("- ", x);
    forall j | 0 <= j < |w| ensures !Hit(w, j, Literal(Nbsp)(w, j)) {
      if j < 2 && j + |Nbsp| <= |w| { assert w[j..j + |Nbsp|][0] == w[j] != '&'; }
    }
    SeparatorsNoHit(w, 0, Literal(Nbsp));
  }

  /**
   * A line indented by `n` non-breaking spaces and starting with `- ` becomes a one-item
   * bullet list indented `n` characters.
   */
  lemma BulletLine(n: nat, x: string)
    requires ItemText(x)
    ensures Bullets(Indent(n) + "- " + x) == "<ul>" + BulletEntryAt(n, x) + "</ul>"
  {
    var s, out := Indent(n) + "- " + x, "<ul>" + BulletEntryAt(n, x) + "</ul>";
    BulletMatch(n, x);
    BulletIndentCount(n, x);
    assert s[0..|s|] == s;
    ReplaceHitLast(s, 0, BulletItem, BulletRender, |s|, [x], out);
  }
}
