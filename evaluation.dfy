/**
 * `formatAIEvaluation` of `src/routes/+page.server.ts`: the evaluation text
 * returned by the assistant becomes the HTML of the e-mail's "Evaluación
 * Inicial" section.  `**x**` becomes bold, a line starting with `###` becomes a
 * subtitle, and the text is cut into sections at blank lines and at numbered
 * items, each section trimmed and wrapped in its own paragraph.
 */
module Evaluation {
  import opened Text
  import opened Scan

  const Stars := "**"
  const Mark := "###"
  const SubtitleOpen := "<h3 style=\"font-size: 1.2rem;\">"
  const ParagraphOpen := "<p style=\"margin: 10px 0; font-size: inherit; color: inherit;\">"

  // ------------------------------------------------------------------ bold

  /** `\*\*(.*?)\*\*`: two stars, then the nearest two stars on the same line. */
  function Bold(s: string, i: nat): Option<Match>
  {
    if !At(s, i, Stars) then None
    else match LazyTo(s, i + 2, Stars, false)
      case Some(e) => Some(Match(e + 2 - i, [s[i + 2..e]]))
      case None => None
  }

  /** `"<strong>$1</strong>"`. */
  function Strong(m: string, g: seq<string>): string
  {
    "<strong>" + Group(g, 0) + "</strong>"
  }

  /** Two stars at `e` close the two stars at `i`: they follow them on the same line. */
  predicate Closes(s: string, i: nat, e: nat)
  {
    i + 2 <= e && At(s, e, Stars) && forall j :: i + 2 <= j < e ==> !IsLineTerminator(s[j])
  }

  /** Between `k` and `e` there are no two stars. */
  predicate NoStarsBetween(s: string, k: nat, e: nat)
  {
    forall j :: k <= j < e ==> !At(s, j, Stars)
  }

  /**
   * A bold match starts exactly where two stars can be closed on the same line,
   * and it takes the nearest closing stars: the text in between is the group.
   */
  lemma BoldMatch(s: string, i: nat)
    ensures Bold(s, i).Some? <==> At(s, i, Stars) && exists e :: Closes(s, i, e)
    ensures Bold(s, i).Some? ==>
              var e := i + Bold(s, i).value.len - 2;
              Closes(s, i, e) && NoStarsBetween(s, i + 2, e) && Bold(s, i).value.groups == [s[i + 2..e]]
  {
    BoldFound(s, i);
    BoldShape(s, i);
  }

  lemma BoldFound(s: string, i: nat)
    ensures Bold(s, i).Some? <==> At(s, i, Stars) && exists e :: Closes(s, i, e)
  {
    if At(s, i, Stars) && exists e :: Closes(s, i, e) {
      var e :| Closes(s, i, e);
      LazyToFinds(s, i + 2, Stars, false, e);
    }
    if Bold(s, i).Some? {
      BoldShape(s, i);
      assert Closes(s, i, i + Bold(s, i).value.len - 2);
    }
  }

  lemma BoldShape(s: string, i: nat)
    ensures Bold(s, i).Some? ==>
              var e := i + Bold(s, i).value.len - 2;
              Closes(s, i, e) && NoStarsBetween(s, i + 2, e) && Bold(s, i).value.groups == [s[i + 2..e]]
  {
    if Bold(s, i).Some? {
      var e := LazyTo(s, i + 2, Stars, false).value;
      assert Bold(s, i) == Some(Match(e + 2 - i, [s[i + 2..e]]));
      assert Closes(s, i, e);
    }
  }

  /** Two stars around text without stars or line ends make that text bold. */
  lemma BoldWraps(x: string)
    requires '*' !in x && forall j :: 0 <= j < |x| ==> !IsLineTerminator(x[j])
    ensures ReplaceAll(Stars + x + Stars, Bold, Strong) == "<strong>" + x + "</strong>"
  {
    var s := Stars + x + Stars;
    var e := 2 + |x|;
    assert s[e..e + 2] == Stars;
    forall j | 2 <= j < e ensures !At(s, j, Stars) && !IsLineTerminator(s[j]) {
      assert s[j] == x[j - 2];
    }
    LazyToFirst(s, 2, Stars, false, e);
    assert s[..2] == Stars;
    assert s[2..e] == x;
    assert ReplaceFrom(s, |s|, Bold, Strong) == [];
  }

  // ------------------------------------------------------------------ subtitles

  /**
   * `^###\s*(.*)$` under the `m` flag: at a line start, `###`, then all the white
   * space that follows (line ends included), then the rest of the line.
   */
  function Subtitle(s: string, i: nat): Option<Match>
  {
    if i <= |s| && LineStart(s, i) && At(s, i, Mark) then
      var w := RunLength(s, i + 3, IsSpace);
      var n := RunLength(s, i + 3 + w, NotLineTerminator);
      Some(Match(3 + w + n, [s[i + 3 + w..i + 3 + w + n]]))
    else None
  }

  /** `<h3 style="font-size: 1.2rem;">$1</h3>`. */
  function SubtitleTag(m: string, g: seq<string>): string
  {
    SubtitleOpen + Group(g, 0) + "</h3>"
  }

  /** A `###` line becomes a subtitle holding the rest of the line, without the white space after the mark. */
  lemma SubtitleLine(ws: string, x: string)
    requires forall j :: 0 <= j < |ws| ==> IsSpace(ws[j])
    requires forall j :: 0 <= j < |x| ==> !IsLineTerminator(x[j])
    requires x == [] || !IsSpace(x[0])
    ensures ReplaceAll(Mark + ws + x, Subtitle, SubtitleTag) == SubtitleOpen + x + "</h3>"
  {
    var s := Mark + ws + x;
    SubtitleMatch(ws, x);
    ReplaceHitAs(s, 0, Subtitle, SubtitleTag, |s|, [x], SubtitleOpen + x + "</h3>");
    assert ReplaceFrom(s, |s|, Subtitle, SubtitleTag) == [];
  }

  /** The subtitle pattern takes the whole line, and its group is the line without the mark and the white space. */
  lemma SubtitleMatch(ws: string, x: string)
    requires forall j :: 0 <= j < |ws| ==> IsSpace(ws[j])
    requires forall j :: 0 <= j < |x| ==> !IsLineTerminator(x[j])
    requires x == [] || !IsSpace(x[0])
    ensures Subtitle(Mark + ws + x, 0) == Some(Match(|Mark + ws + x|, [x]))
  {
    var s := Mark + ws + x;
    assert s[..3] == Mark;
    MarkSpaces(ws, x);
    MarkLine(ws, x);
    assert s[3 + |ws|..|s|] == x;
  }

  lemma MarkSpaces(ws: string, x: string)
    requires forall j :: 0 <= j < |ws| ==> IsSpace(ws[j])
    requires x == [] || !IsSpace(x[0])
    ensures RunLength(Mark + ws + x, 3, IsSpace) == |ws|
  {
    var s := Mark + ws + x;
    forall j | 3 <= j < 3 + |ws| ensures IsSpace(s[j]) {
      assert s[j] == ws[j - 3];
    }
    assert 3 + |ws| < |s| ==> s[3 + |ws|] == x[0];
    RunFrom(s, 3, 3 + |ws|, IsSpace);
  }

  lemma MarkLine(ws: string, x: string)
    requires forall j :: 0 <= j < |x| ==> !IsLineTerminator(x[j])
    ensures RunLength(Mark + ws + x, 3 + |ws|, NotLineTerminator) == |x|
  {
    var s := Mark + ws + x;
    forall j | 3 + |ws| <= j < |s| ensures NotLineTerminator(s[j]) {
      assert s[j] == x[j - 3 - |ws|];
    }
    RunFrom(s, 3 + |ws|, |s|, NotLineTerminator);
  }

  /** A run of characters that satisfy `f` from `i` up to `e`, where one that does not or the end follows. */
  lemma {:induction false} RunFrom(s: string, i: nat, e: nat, f: char -> bool)
    requires i <= e <= |s|
    requires forall j :: i <= j < e ==> f(s[j])
    requires e < |s| ==> !f(s[e])
    ensures RunLength(s, i, f) == e - i
    decreases e - i
  {
    if i < e {
      RunFrom(s, i + 1, e, f);
    }
  }

  /**
   * Because `\s*` also crosses line ends, a `###` alone on its line takes the
   * next line as its subtitle.
   */
  lemma BareMarkTakesNextLine()
    ensures ReplaceAll("###\nResumen", Subtitle, SubtitleTag) == SubtitleOpen + "Resumen" + "</h3>"
  {
    assert "###\nResumen" == Mark + "\n" + "Resumen";
    SubtitleLine("\n", "Resumen");
  }

  /** Text in which no line starts with `###` is left alone. */
  lemma NoMarkUnchanged(s: string)
    requires forall i :: 0 <= i <= |s| && LineStart(s, i) ==> !At(s, i, Mark)
    ensures ReplaceAll(s, Subtitle, SubtitleTag) == s
  {
    ReplaceNoHit(s, 0, Subtitle, SubtitleTag);
    assert s[0..] == s;
  }

  /** No line of `s` starts with `###`. */
  predicate Unmarked(s: string)
  {
    forall i :: 0 <= i <= |s| && LineStart(s, i) ==> !At(s, i, Mark)
  }

  /**
   * A `###` line among other lines becomes a subtitle, and the lines before and
   * after it, which hold no mark of their own, are left as they are.
   */
  lemma SubtitleAmongLines(pre: string, ws: string, x: string, post: string)
    requires pre == [] || IsLineTerminator(pre[|pre| - 1])
    requires forall j :: 0 <= j < |ws| ==> IsSpace(ws[j])
    requires x != [] && !IsSpace(x[0]) && forall j :: 0 <= j < |x| ==> !IsLineTerminator(x[j])
    requires post == [] || IsLineTerminator(post[0])
    requires Unmarked(pre) && Unmarked(post)
    ensures ReplaceAll(pre + Mark + ws + x + post, Subtitle, SubtitleTag)
            == pre + SubtitleOpen + x + "</h3>" + post
  {
    var s := pre + Mark + ws + x + post;
    var h, e := |pre|, |pre| + (3 + |ws| + |x|);
    SubtitleOnly(pre, ws, x, post);
    ReplaceOnlyHit(s, h, e, Subtitle, SubtitleTag, [x], SubtitleOpen + x + "</h3>");
    SubtitleJoin(pre, x, post);
  }

  /** In that text the subtitle pattern matches at the `###` line and nowhere else. */
  lemma SubtitleOnly(pre: string, ws: string, x: string, post: string)
    requires pre == [] || IsLineTerminator(pre[|pre| - 1])
    requires forall j :: 0 <= j < |ws| ==> IsSpace(ws[j])
    requires x != [] && !IsSpace(x[0]) && forall j :: 0 <= j < |x| ==> !IsLineTerminator(x[j])
    requires post == [] || IsLineTerminator(post[0])
    requires Unmarked(pre) && Unmarked(post)
    ensures var s, h, e := pre + Mark + ws + x + post, |pre|, |pre| + (3 + |ws| + |x|);
            && e <= |s| && s[0..h] == pre && s[e..] == post
            && Subtitle(s, h) == Some(Match(e - h, [x]))
            && (forall j :: 0 <= j < h ==> !Hit(s, j, Subtitle(s, j)))
            && (forall j :: e <= j < |s| ==> !Hit(s, j, Subtitle(s, j)))
  {
    var s := pre + Mark + ws + x + post;
    var h, e := |pre|, |pre| + (3 + |ws| + |x|);
    SubtitleParts(pre, ws, x, post);
    SubtitleBefore(s, h);
    SubtitleAt(s, h, ws, x);
    SubtitleAfter(s, e);
  }

  lemma SubtitleJoin(pre: string, x: string, post: string)
    ensures pre + (SubtitleOpen + x + "</h3>") + post == pre + SubtitleOpen + x + "</h3>" + post
  {
    AppendAssoc(pre, SubtitleOpen + x, "</h3>");
    AppendAssoc(pre, SubtitleOpen, x);
  }

  /** Where the pieces of `pre + ### + ws + x + post` sit. */
  lemma SubtitleParts(pre: string, ws: string, x: string, post: string)
    requires pre == [] || IsLineTerminator(pre[|pre| - 1])
    requires x != [] && !IsLineTerminator(x[|x| - 1])
    requires post == [] || IsLineTerminator(post[0])
    ensures var s, h, n := pre + Mark + ws + x + post, |pre|, 3 + |ws| + |x|;
            && h + n + |post| == |s|
            && s[0..h] == pre && s[h + n..] == post
            && (h == 0 || IsLineTerminator(s[h - 1]))
            && At(s, h, Mark) && At(s, h + 3, ws) && At(s, h + 3 + |ws|, x)
            && !IsLineTerminator(s[h + n - 1])
            && (h + 3 + |ws| + |x| < |s| ==> IsLineTerminator(s[h + 3 + |ws| + |x|]))
  {
    var s, h := pre + Mark + ws + x + post, |pre|;
    var a := h + 3 + |ws|;
    var e := a + |x|;
    assert s[0..h] == pre;
    if h > 0 { assert s[h - 1] == pre[h - 1]; }
    assert s[h..h + 3] == Mark;
    assert s[h + 3..a] == ws;
    assert s[a..e] == x;
    assert s[e - 1] == x[|x| - 1];
    assert s[e..] == post;
    if e < |s| { assert s[e] == post[0]; }
  }

  /** Before a line end that closes unmarked lines, no subtitle starts. */
  lemma SubtitleBefore(s: string, h: nat)
    requires h <= |s| && (h == 0 || IsLineTerminator(s[h - 1]))
    requires Unmarked(s[0..h])
    ensures forall j :: 0 <= j < h ==> !Hit(s, j, Subtitle(s, j))
  {
    var pre := s[0..h];
    forall j | 0 <= j < h ensures !(LineStart(s, j) && At(s, j, Mark)) {
      if LineStart(s, j) && At(s, j, Mark) {
        if j + 3 <= h {
          assert pre[j..j + 3] == s[j..j + 3];
          if j > 0 { assert pre[j - 1] == s[j - 1]; }
          assert LineStart(pre, j);
        } else {
          MarkCovers(s, j, h - 1);
        }
      }
    }
  }

  /** Each character under a `###` is a `#`. */
  lemma MarkCovers(s: string, j: nat, k: nat)
    requires At(s, j, Mark) && j <= k < j + 3
    ensures s[k] == '#'
  {
    assert s[k] == s[j..j + 3][k - j];
  }

  /** A `###` at a line start, white space `ws` and a line `x` that a line end or the end closes. */
  lemma SubtitleAt(s: string, h: nat, ws: string, x: string)
    requires h <= |s| && LineStart(s, h) && At(s, h, Mark)
    requires At(s, h + 3, ws) && forall j :: 0 <= j < |ws| ==> IsSpace(ws[j])
    requires At(s, h + 3 + |ws|, x)
    requires x != [] && !IsSpace(x[0]) && forall j :: 0 <= j < |x| ==> !IsLineTerminator(x[j])
    requires h + 3 + |ws| + |x| < |s| ==> IsLineTerminator(s[h + 3 + |ws| + |x|])
    ensures Subtitle(s, h) == Some(Match(3 + |ws| + |x|, [x]))
  {
    var a := h + 3 + |ws|;
    assert s[a] == s[a..a + |x|][0];
    RunOver(s, h + 3, ws, IsSpace);
    RunOver(s, a, x, NotLineTerminator);
  }

  /** A run of characters satisfying `f` that `u` spells out at `i` and that the next character ends. */
  lemma RunOver(s: string, i: nat, u: string, f: char -> bool)
    requires At(s, i, u)
    requires forall k :: 0 <= k < |u| ==> f(u[k])
    requires i + |u| < |s| ==> !f(s[i + |u|])
    ensures RunLength(s, i, f) == |u|
  {
    forall j | i <= j < i + |u| ensures f(s[j]) {
      assert s[j] == s[i..i + |u|][j - i];
    }
    RunFrom(s, i, i + |u|, f);
  }

  /** After a line that does not end in a line end, unmarked lines hold no subtitle. */
  lemma SubtitleAfter(s: string, e: nat)
    requires 0 < e <= |s| && !IsLineTerminator(s[e - 1])
    requires Unmarked(s[e..])
    ensures forall j :: e <= j < |s| ==> !Hit(s, j, Subtitle(s, j))
  {
    var post := s[e..];
    forall j | e <= j < |s| ensures !(LineStart(s, j) && At(s, j, Mark)) {
      if LineStart(s, j) && At(s, j, Mark) {
        assert j > e;
        assert s[j - 1] == post[j - 1 - e];
        assert s[j..j + 3] == post[j - e..j - e + 3];
        assert LineStart(post, j - e);
      }
    }
  }

  // ------------------------------------------------------------------ sections

  /** The last `\n` at an index from `lo` up to (not including) `hi`, if any. */
  function LastNewline(s: string, lo: nat, hi: nat): (r: Option<nat>)
    requires lo <= hi <= |s|
    ensures r.Some? ==> lo <= r.value < hi && s[r.value] == '\n' && forall j :: r.value < j < hi ==> s[j] != '\n'
    ensures r.None? ==> forall j :: lo <= j < hi ==> s[j] != '\n'
    decreases hi - lo
  {
    if lo == hi then None
    else if s[hi - 1] == '\n' then Some(hi - 1)
    else LastNewline(s, lo, hi - 1)
  }

  /**
   * `\n\s*\n|\n\d+\.\s`: a line end, white space and another line end (the
   * greedy `\s*` backs off to the last line end of the run); otherwise a line
   * end, digits, a dot and one white-space character.
   */
  function Break(s: string, i: nat): Option<Match>
  {
    if i < |s| && s[i] == '\n' then
      var w := RunLength(s, i + 1, IsSpace);
      match LastNewline(s, i + 1, i + 1 + w)
      case Some(p) => Some(Match(p + 1 - i, []))
      case None =>
        var d := RunLength(s, i + 1, IsDigit);
        if d >= 1 && i + 2 + d < |s| && s[i + 1 + d] == '.' && IsSpace(s[i + 2 + d]) then Some(Match(d + 3, []))
        else None
    else None
  }

  /** `.split(/\n\s*\n|\n\d+\.\s/)`. */
  function Sections(t: string): seq<string>
  {
    SplitFrom(t, 0, 0, Break)
  }

  /** One section: trimmed and wrapped in a paragraph. */
  function Paragraph(section: string): string
  {
    ParagraphOpen + Trim(section) + "</p>"
  }

  /** `.map(...).join("")`. */
  function Paragraphs(sections: seq<string>): string
  {
    if sections == [] then [] else Paragraph(sections[0]) + Paragraphs(sections[1..])
  }

  /** `formatAIEvaluation`. */
  function FormatAIEvaluation(response: string): string
  {
    var bold := ReplaceAll(response, Bold, Strong);
    var titled := ReplaceAll(bold, Subtitle, SubtitleTag);
    Paragraphs(Sections(titled))
  }

  /** Cutting into sections loses nothing and keeps the order: the breaks put back between them give the text. */
  lemma SectionsRejoin(t: string)
    ensures |Sections(t)| == |SeparatorsFrom(t, 0, Break)| + 1
    ensures Weave(Sections(t), SeparatorsFrom(t, 0, Break)) == t
  {
    SplitRejoin(t, 0, 0, Break);
    assert t[0..] == t;
  }

  /** Every blank line is a break. */
  lemma BlankLineBreaks(t: string, j: nat)
    requires Occurs(t, "\n\n", j)
    ensures Hit(t, j, Break(t, j))
  {
    assert t[j] == '\n' && t[j + 1] == '\n';
    var w := RunLength(t, j + 1, IsSpace);
    assert w >= 1;
    var l := LastNewline(t, j + 1, j + 1 + w);
    assert l.Some? by {
      if l.None? {
        assert false;
      }
    }
  }

  /** Every line that starts with one digit, a dot and a space is a break. */
  lemma NumberedItemBreaks(t: string, j: nat, c: char)
    requires IsDigit(c) && Occurs(t, "\n" + [c] + ". ", j)
    ensures Hit(t, j, Break(t, j))
  {
    var p := "\n" + [c] + ". ";
    assert t[j..j + 4] == p;
    assert t[j..j + 4][0] == t[j] && t[j..j + 4][1] == t[j + 1];
    assert t[j..j + 4][2] == t[j + 2] && t[j..j + 4][3] == t[j + 3];
    assert p[0] == '\n' && p[1] == c && p[2] == '.' && p[3] == ' ';
    assert RunLength(t, j + 1, IsSpace) == 0;
    assert LastNewline(t, j + 1, j + 1) == None;
    RunFrom(t, j + 1, j + 2, IsDigit);
    assert Break(t, j) == Some(Match(4, []));
  }

  /** `\n\s*\n` at `j`, `n` characters long: a line end, white space, and a line end. */
  predicate BlankAt(t: string, j: nat, n: nat)
  {
    2 <= n && j + n <= |t| && t[j] == '\n' && t[j + n - 1] == '\n'
    && forall k :: j < k < j + n - 1 ==> IsSpace(t[k])
  }

  /** `\n\d+\.\s` at `j`, `n` characters long: a line end, digits, a dot and one white-space character. */
  predicate NumberedAt(t: string, j: nat, n: nat)
  {
    4 <= n && j + n <= |t| && t[j] == '\n'
    && (forall k :: j < k < j + n - 2 ==> IsDigit(t[k]))
    && t[j + n - 2] == '.' && IsSpace(t[j + n - 1])
  }

  /**
   * The text is split at `j` exactly when one of the two alternatives occurs
   * there; a match is always one of them, of the length it takes.
   */
  lemma BreakIff(t: string, j: nat)
    ensures Hit(t, j, Break(t, j)) <==> exists n :: BlankAt(t, j, n) || NumberedAt(t, j, n)
    ensures Hit(t, j, Break(t, j)) ==>
              BlankAt(t, j, Break(t, j).value.len) || NumberedAt(t, j, Break(t, j).value.len)
  {
    BreakShape(t, j);
    forall n | BlankAt(t, j, n) || NumberedAt(t, j, n) ensures Hit(t, j, Break(t, j)) {
      if BlankAt(t, j, n) {
        BlankIsBreak(t, j, n);
      } else {
        NumberedIsBreak(t, j, n);
      }
    }
  }

  /** A match of the split pattern is one of its two alternatives. */
  lemma BreakShape(t: string, j: nat)
    ensures Hit(t, j, Break(t, j)) ==>
              BlankAt(t, j, Break(t, j).value.len) || NumberedAt(t, j, Break(t, j).value.len)
  {
    if Hit(t, j, Break(t, j)) {
      var w := RunLength(t, j + 1, IsSpace);
      match LastNewline(t, j + 1, j + 1 + w)
      case Some(p) =>
        assert Break(t, j).value.len == p + 1 - j;
      case None =>
        var d := RunLength(t, j + 1, IsDigit);
        assert Break(t, j).value.len == d + 3;
    }
  }

  /** White space between two line ends is a break. */
  lemma BlankIsBreak(t: string, j: nat, n: nat)
    requires BlankAt(t, j, n)
    ensures Hit(t, j, Break(t, j))
  {
    var w := RunLength(t, j + 1, IsSpace);
    assert IsSpace(t[j + n - 1]);
    assert j + n - 1 < j + 1 + w;
    assert LastNewline(t, j + 1, j + 1 + w).Some?;
  }

  /** A line end, digits, a dot and white space is a break, unless a blank line is taken there first. */
  lemma NumberedIsBreak(t: string, j: nat, n: nat)
    requires NumberedAt(t, j, n)
    ensures Hit(t, j, Break(t, j))
  {
    var w := RunLength(t, j + 1, IsSpace);
    if LastNewline(t, j + 1, j + 1 + w).None? {
      RunFrom(t, j + 1, j + n - 2, IsDigit);
    }
  }

  /** Text in which neither alternative occurs anywhere is one section. */
  lemma NoBreakOneSection(t: string)
    requires forall j: nat, n: nat :: !BlankAt(t, j, n) && !NumberedAt(t, j, n)
    ensures Sections(t) == [t]
  {
    forall j | 0 <= j < |t| ensures !Hit(t, j, Break(t, j)) {
      BreakShape(t, j);
    }
    SplitCopies(t, 0, 0, |t|, Break);
    assert t[0..|t|] == t;
  }

  /**
   * A single line end keeps two lines in one section, unless the second line
   * opens with white space or a digit.
   */
  lemma SingleLineFeedKeeps(x: string, y: string)
    requires '\n' !in x && '\n' !in y
    requires y != [] && !IsSpace(y[0]) && !IsDigit(y[0])
    ensures Sections(x + "\n" + y) == [x + "\n" + y]
  {
    var t := x + "\n" + y;
    forall j: nat, n: nat ensures !BlankAt(t, j, n) && !NumberedAt(t, j, n) {
      if j == |x| {
        assert t[j + 1] == y[0];
      }
    }
    NoBreakOneSection(t);
  }

  /** No section holds a blank line. */
  lemma NoBlankLineInSection(t: string)
    ensures forall k :: 0 <= k < |Sections(t)| ==> !Contains(Sections(t)[k], "\n\n")
  {
    forall j | 0 <= j < |t| && Occurs(t, "\n\n", j) ensures Hit(t, j, Break(t, j)) {
      BlankLineBreaks(t, j);
    }
    PiecesAvoidMatched(t, 0, 0, Break, "\n\n");
  }

  /** No section holds a numbered item `\n<digit>. `: each one starts a new section. */
  lemma NoNumberedItemInSection(t: string, c: char)
    requires IsDigit(c)
    ensures forall k :: 0 <= k < |Sections(t)| ==> !Contains(Sections(t)[k], "\n" + [c] + ". ")
  {
    forall j | 0 <= j < |t| && Occurs(t, "\n" + [c] + ". ", j) ensures Hit(t, j, Break(t, j)) {
      NumberedItemBreaks(t, j, c);
    }
    PiecesAvoidMatched(t, 0, 0, Break, "\n" + [c] + ". ");
  }

  /** Every paragraph holds a trimmed section: no white space just inside its tags. */
  lemma ParagraphTrimmed(section: string)
    ensures var p := Paragraph(section);
            |p| >= |ParagraphOpen| + 4 && p[..|ParagraphOpen|] == ParagraphOpen && p[|p| - 4..] == "</p>"
    ensures var body := Trim(section); body != [] ==> !IsSpace(body[0]) && !IsSpace(body[|body| - 1])
  {
  }

  /** Text without stars, `#` or line ends passes through the bold and subtitle steps unchanged. */
  lemma QuietText(t: string)
    requires '*' !in t && '#' !in t
    ensures ReplaceAll(ReplaceAll(t, Bold, Strong), Subtitle, SubtitleTag) == t
  {
    forall j | 0 <= j < |t| ensures !Hit(t, j, Bold(t, j)) && !Hit(t, j, Subtitle(t, j)) {
      AtHead(t, j, Stars);
      AtHead(t, j, Mark);
    }
    ReplaceNoHit(t, 0, Bold, Strong);
    ReplaceNoHit(t, 0, Subtitle, SubtitleTag);
    assert t[0..] == t;
  }

  /** Where there is no line end there is no break. */
  lemma NoBreakWithoutNewline(t: string, lo: nat, hi: nat)
    requires lo <= hi <= |t| && forall j :: lo <= j < hi ==> t[j] != '\n'
    ensures forall j :: lo <= j < hi ==> !Hit(t, j, Break(t, j))
  {
  }

  /** A single line of plain text is one trimmed paragraph. */
  lemma OneParagraph(x: string)
    requires '*' !in x && '#' !in x && '\n' !in x
    ensures FormatAIEvaluation(x) == ParagraphOpen + Trim(x) + "</p>"
  {
    QuietText(x);
    NoBreakWithoutNewline(x, 0, |x|);
    SplitCopies(x, 0, 0, |x|, Break);
    assert x[0..] == x;
    assert Sections(x) == [x];
    assert Paragraphs([x]) == Paragraph(x) + Paragraphs([]);
  }

  /** Two line ends with no other line end after them are a break of length two. */
  lemma BlankBreak(t: string, b: nat)
    requires b + 1 < |t| && t[b] == '\n' && t[b + 1] == '\n'
    requires forall j :: b + 2 <= j < |t| ==> t[j] != '\n'
    ensures Break(t, b) == Some(Match(2, []))
  {
    var w := RunLength(t, b + 1, IsSpace);
    assert LastNewline(t, b + 1, b + 1 + w) == Some(b + 1);
  }

  /** A blank line between two plain lines cuts the text into those two lines. */
  /** Where the two lines and the blank line between them sit in the joined text. */
  lemma SectionsFrame(x: string, y: string)
    requires '\n' !in x && '\n' !in y
    ensures var t := x + "\n\n" + y;
            && |x| + 2 <= |t| && t[..|x|] == x && t[|x| + 2..] == y
            && t[|x|] == '\n' && t[|x| + 1] == '\n'
            && (forall j :: 0 <= j < |x| ==> t[j] != '\n')
            && (forall j :: |x| + 2 <= j < |t| ==> t[j] != '\n')
  {
    var t := x + "\n\n" + y;
    var b := |x|;
    assert t[..b] == x && t[b + 2..] == y;
    forall j | 0 <= j < b ensures t[j] != '\n' { assert t[j] == t[..b][j]; }
    forall j | b + 2 <= j < |t| ensures t[j] != '\n' { assert t[j] == t[b + 2..][j - b - 2]; }
  }

  lemma TwoSections(x: string, y: string)
    requires '\n' !in x && '\n' !in y
    ensures Sections(x + "\n\n" + y) == [x, y]
  {
    var t := x + "\n\n" + y;
    var b := |x|;
    SectionsFrame(x, y);
    NoBreakWithoutNewline(t, 0, b);
    NoBreakWithoutNewline(t, b + 2, |t|);
    SplitCopies(t, 0, 0, b, Break);
    BlankBreak(t, b);
    SplitCopies(t, b + 2, b + 2, |t|, Break);
    assert t[0..b] == x;
  }

  lemma QuietJoin(x: string, y: string)
    requires '*' !in x && '#' !in x && '*' !in y && '#' !in y
    ensures '*' !in x + "\n\n" + y && '#' !in x + "\n\n" + y
  {
    var t := x + "\n\n" + y;
    assert t == x + ("\n\n" + y);
  }

  /** Two plain lines separated by a blank line become two paragraphs, in order. */
  lemma TwoParagraphs(x: string, y: string)
    requires '*' !in x && '#' !in x && '\n' !in x
    requires '*' !in y && '#' !in y && '\n' !in y
    ensures FormatAIEvaluation(x + "\n\n" + y) == Paragraph(x) + Paragraph(y)
  {
    QuietJoin(x, y);
    QuietText(x + "\n\n" + y);
    TwoSections(x, y);
    assert Paragraphs([x, y]) == Paragraph(x) + Paragraphs([y]);
    assert Paragraphs([y]) == Paragraph(y) + Paragraphs([]);
  }
}
