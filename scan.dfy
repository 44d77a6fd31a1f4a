/**
 * A model of `String.prototype.replace` and `String.prototype.split` with a
 * global regular expression.  The regular expression itself is represented by a
 * finder: given the text and an index, it says whether the pattern matches
 * starting exactly at that index (and with what length and capture groups).
 * The scanner tries the indices from left to right, replaces each match by what
 * the callback renders for it, resumes right after the match, and copies every
 * other character unchanged.  The patterns of the formatter never match the empty
 * string, so a finder answer of length zero is treated as "no match".
 */
module Scan {
  import opened Text

  /** A match starting at some index: its length and its capture groups ($1, $2, ...). */
  datatype Match = Match(len: nat, groups: seq<string>)

  /** Whether a pattern matches at an index of a text. */
  type Finder = (string, nat) -> Option<Match>

  /** What a match is replaced by, given the matched text and the groups. */
  type Render = (string, seq<string>) -> string

  /** What a callback appends to a list for one match (the pushes it performs). */
  type Log = (string, seq<string>) -> seq<string>

  /** The finder's answer is a usable match at `i`. */
  predicate Hit(s: string, i: nat, m: Option<Match>) {
    m.Some? && 0 < m.value.len && i + m.value.len <= |s|
  }

  /** Capture group `k`, or the empty string when the pattern has no such group. */
  function Group(g: seq<string>, k: nat): string
  {
    if k < |g| then g[k] else []
  }

  /** Global replacement from index `i` on. */
  function ReplaceFrom(s: string, i: nat, find: Finder, render: Render): string
    requires i <= |s|
    decreases |s| - i
  {
    if i == |s| then []
    else
      var m := find(s, i);
      if Hit(s, i, m) then
        render(s[i..i + m.value.len], m.value.groups) + ReplaceFrom(s, i + m.value.len, find, render)
      else
        [s[i]] + ReplaceFrom(s, i + 1, find, render)
  }

  /** `s.replace(/re/g, render)`. */
  function ReplaceAll(s: string, find: Finder, render: Render): string
  {
    ReplaceFrom(s, 0, find, render)
  }

  /** Everything the callback pushes, in scan order, from index `i` on. */
  function LogFrom(s: string, i: nat, find: Finder, log: Log): seq<string>
    requires i <= |s|
    decreases |s| - i
  {
    if i == |s| then []
    else
      var m := find(s, i);
      if Hit(s, i, m) then
        log(s[i..i + m.value.len], m.value.groups) + LogFrom(s, i + m.value.len, find, log)
      else
        LogFrom(s, i + 1, find, log)
  }

  /** A literal pattern (a regular expression without metacharacters). */
  function Literal(p: string): Finder
  {
    (s: string, i: nat) => if |p| > 0 && At(s, i, p) then Some(Match(|p|, [])) else None
  }

  /** A replacement string without `$` references: every match becomes `rep`. */
  function Const(rep: string): Render
  {
    (_: string, _: seq<string>) => rep
  }

  /** Replacement of every occurrence of a literal pattern by a fixed string. */
  function ReplaceLiteral(s: string, p: string, rep: string): string
  {
    ReplaceAll(s, Literal(p), Const(rep))
  }

  /** Where no match starts, the text is copied unchanged. */
  lemma {:induction false} ReplaceNoHit(s: string, i: nat, find: Finder, render: Render)
    requires i <= |s|
    requires forall j :: i <= j < |s| ==> !Hit(s, j, find(s, j))
    ensures ReplaceFrom(s, i, find, render) == s[i..]
    decreases |s| - i
  {
    if i < |s| {
      ReplaceNoHit(s, i + 1, find, render);
    }
  }

  /** Where nothing matches, nothing is pushed. */
  lemma {:induction false} LogNoHit(s: string, i: nat, find: Finder, log: Log)
    requires i <= |s|
    requires forall j :: i <= j < |s| ==> !Hit(s, j, find(s, j))
    ensures LogFrom(s, i, find, log) == []
    decreases |s| - i
  {
    if i < |s| {
      LogNoHit(s, i + 1, find, log);
    }
  }

  /** One step of the scan at a match: the rendering, then the scan after the match. */
  lemma ReplaceHit(s: string, i: nat, find: Finder, render: Render)
    requires i < |s| && Hit(s, i, find(s, i))
    ensures ReplaceFrom(s, i, find, render)
            == render(s[i..i + find(s, i).value.len], find(s, i).value.groups) + ReplaceFrom(s, i + find(s, i).value.len, find, render)
  {
  }

  /** One step at a match of known length whose rendering is known. */
  lemma ReplaceHitAs(s: string, i: nat, find: Finder, render: Render, n: nat, g: seq<string>, out: string)
    requires i < |s| && 0 < n && i + n <= |s| && find(s, i) == Some(Match(n, g))
    requires render(s[i..i + n], g) == out
    ensures ReplaceFrom(s, i, find, render) == out + ReplaceFrom(s, i + n, find, render)
  {
    ReplaceHit(s, i, find, render);
  }

  /** One step at a match of known length, stated with the index where the scan resumes. */
  lemma ReplaceHitTo(s: string, i: nat, find: Finder, render: Render, n: nat, g: seq<string>, out: string, j: nat)
    requires i < |s| && 0 < n && j == i + n <= |s| && find(s, i) == Some(Match(n, g))
    requires render(s[i..i + n], g) == out
    ensures ReplaceFrom(s, i, find, render) == out + ReplaceFrom(s, j, find, render)
  {
    ReplaceHitAs(s, i, find, render, n, g, out);
  }

  /** A match that runs to the end of the text: its rendering is all the scan adds. */
  lemma ReplaceHitLast(s: string, i: nat, find: Finder, render: Render, n: nat, g: seq<string>, out: string)
    requires i < |s| && 0 < n && i + n == |s| && find(s, i) == Some(Match(n, g))
    requires render(s[i..|s|], g) == out
    ensures ReplaceFrom(s, i, find, render) == out
  {
    ReplaceHitAs(s, i, find, render, n, g, out);
    assert out + [] == out;
  }

  /** One step of the scan where nothing matches: the character, then the scan after it. */
  lemma ReplaceMiss(s: string, i: nat, find: Finder, render: Render)
    requires i < |s| && !Hit(s, i, find(s, i))
    ensures ReplaceFrom(s, i, find, render) == [s[i]] + ReplaceFrom(s, i + 1, find, render)
  {
  }

  /** One step of the pushes at a match. */
  lemma LogHit(s: string, i: nat, find: Finder, log: Log)
    requires i < |s| && Hit(s, i, find(s, i))
    ensures LogFrom(s, i, find, log)
            == log(s[i..i + find(s, i).value.len], find(s, i).value.groups) + LogFrom(s, i + find(s, i).value.len, find, log)
  {
  }

  /** One step of the pushes where nothing matches. */
  lemma LogMiss(s: string, i: nat, find: Finder, log: Log)
    requires i < |s| && !Hit(s, i, find(s, i))
    ensures LogFrom(s, i, find, log) == LogFrom(s, i + 1, find, log)
  {
  }

  /** The callback gives the match at `j`, if any, back unchanged. */
  predicate KeepsAt(s: string, j: nat, find: Finder, render: Render) {
    Hit(s, j, find(s, j)) ==>
      render(s[j..j + find(s, j).value.len], find(s, j).value.groups) == s[j..j + find(s, j).value.len]
  }

  /** Where no match starts, there is nothing to give back. */
  lemma MissKeeps(s: string, j: nat, find: Finder, render: Render)
    requires !Hit(s, j, find(s, j))
    ensures KeepsAt(s, j, find, render)
  {
  }

  /** A callback that gives every match back unchanged leaves the text unchanged. */
  lemma {:induction false} ReplaceIdentity(s: string, i: nat, find: Finder, render: Render)
    requires i <= |s|
    requires forall j :: i <= j < |s| ==> KeepsAt(s, j, find, render)
    ensures ReplaceFrom(s, i, find, render) == s[i..]
    decreases |s| - i
  {
    if i < |s| {
      if Hit(s, i, find(s, i)) {
        ReplaceIdentity(s, i + find(s, i).value.len, find, render);
        IdentityHit(s, i, find, render);
      } else {
        ReplaceIdentity(s, i + 1, find, render);
        IdentityMiss(s, i, find, render);
      }
    }
  }

  lemma IdentityHit(s: string, i: nat, find: Finder, render: Render)
    requires i < |s| && Hit(s, i, find(s, i)) && KeepsAt(s, i, find, render)
    requires ReplaceFrom(s, i + find(s, i).value.len, find, render) == s[i + find(s, i).value.len..]
    ensures ReplaceFrom(s, i, find, render) == s[i..]
  {
    var e := i + find(s, i).value.len;
    ReplaceHit(s, i, find, render);
    assert render(s[i..e], find(s, i).value.groups) == s[i..e];
    SliceSplit(s, i, e);
  }

  lemma IdentityMiss(s: string, i: nat, find: Finder, render: Render)
    requires i < |s| && !Hit(s, i, find(s, i))
    requires ReplaceFrom(s, i + 1, find, render) == s[i + 1..]
    ensures ReplaceFrom(s, i, find, render) == s[i..]
  {
    ReplaceMiss(s, i, find, render);
    SliceSplit(s, i, i + 1);
    assert s[i..i + 1] == [s[i]];
  }

  /** `s.split(/re/)`: the pieces between matches, from index `i` on, the current piece starting at `start`. */
  function SplitFrom(s: string, start: nat, i: nat, find: Finder): (pieces: seq<string>)
    requires start <= i <= |s|
    ensures |pieces| >= 1
    decreases |s| - i
  {
    if i == |s| then [s[start..]]
    else
      var m := find(s, i);
      if Hit(s, i, m) then [s[start..i]] + SplitFrom(s, i + m.value.len, i + m.value.len, find)
      else SplitFrom(s, start, i + 1, find)
  }

  /** The separators `split` drops, in order. */
  function SeparatorsFrom(s: string, i: nat, find: Finder): (seps: seq<string>)
    requires i <= |s|
    decreases |s| - i
  {
    if i == |s| then []
    else
      var m := find(s, i);
      if Hit(s, i, m) then [s[i..i + m.value.len]] + SeparatorsFrom(s, i + m.value.len, find)
      else SeparatorsFrom(s, i + 1, find)
  }

  /** What `queue.shift() || ''` yields: the front of the queue, or the empty string once it is exhausted. */
  function Front(q: seq<string>): string
  {
    if q == [] then [] else q[0]
  }

  /** The queue after `shift()`. */
  function Behind(q: seq<string>): seq<string>
  {
    if q == [] then [] else q[1..]
  }

  /** `n` copies of `x`. */
  function Repeat(x: string, n: nat): (r: seq<string>)
    ensures |r| == n && forall k :: 0 <= k < n ==> r[k] == x
  {
    if n == 0 then [] else [x] + Repeat(x, n - 1)
  }

  /** Pieces with fills between them: piece, fill, piece, ..., piece; a missing fill is empty. */
  function Weave(pieces: seq<string>, fills: seq<string>): string
    decreases |pieces|
  {
    if pieces == [] then []
    else if |pieces| == 1 then pieces[0]
    else pieces[0] + Front(fills) + Weave(pieces[1..], Behind(fills))
  }

  /** `split` loses nothing: putting the separators back between the pieces gives the text again. */
  lemma {:induction false} SplitRejoin(s: string, start: nat, i: nat, find: Finder)
    requires start <= i <= |s|
    ensures |SplitFrom(s, start, i, find)| == |SeparatorsFrom(s, i, find)| + 1
    ensures Weave(SplitFrom(s, start, i, find), SeparatorsFrom(s, i, find)) == s[start..]
    decreases |s| - i
  {
    if i < |s| {
      var m := find(s, i);
      if Hit(s, i, m) {
        var e := i + m.value.len;
        SplitRejoin(s, e, e, find);
        assert s[start..] == s[start..i] + s[i..e] + s[e..];
      } else {
        SplitRejoin(s, start, i + 1, find);
      }
    }
  }

  /** Replacing every match by the same string puts that string between the pieces `split` would give. */
  lemma {:induction false} ReplaceConstWeaves(s: string, start: nat, i: nat, find: Finder, r: string)
    requires start <= i <= |s|
    ensures s[start..i] + ReplaceFrom(s, i, find, Const(r))
            == Weave(SplitFrom(s, start, i, find), Repeat(r, |SeparatorsFrom(s, i, find)|))
    decreases |s| - i, 1
  {
    if i == |s| {
      WeavesEnd(s, start, find, r);
    } else if Hit(s, i, find(s, i)) {
      WeavesAtHit(s, start, i, find, r);
    } else {
      WeavesAtMiss(s, start, i, find, r);
    }
  }

  lemma {:induction false} WeavesAtHit(s: string, start: nat, i: nat, find: Finder, r: string)
    requires start <= i < |s| && Hit(s, i, find(s, i))
    ensures s[start..i] + ReplaceFrom(s, i, find, Const(r))
            == Weave(SplitFrom(s, start, i, find), Repeat(r, |SeparatorsFrom(s, i, find)|))
    decreases |s| - i, 0
  {
    var e := i + find(s, i).value.len;
    ReplaceConstWeaves(s, e, e, find, r);
    WeavesHit(s, start, i, find, r);
  }

  lemma {:induction false} WeavesAtMiss(s: string, start: nat, i: nat, find: Finder, r: string)
    requires start <= i < |s| && !Hit(s, i, find(s, i))
    ensures s[start..i] + ReplaceFrom(s, i, find, Const(r))
            == Weave(SplitFrom(s, start, i, find), Repeat(r, |SeparatorsFrom(s, i, find)|))
    decreases |s| - i, 0
  {
    ReplaceConstWeaves(s, start, i + 1, find, r);
    WeavesMiss(s, start, i, find, r);
  }

  lemma WeavesEnd(s: string, start: nat, find: Finder, r: string)
    requires start <= |s|
    ensures s[start..|s|] + ReplaceFrom(s, |s|, find, Const(r))
            == Weave(SplitFrom(s, start, |s|, find), Repeat(r, |SeparatorsFrom(s, |s|, find)|))
  {
    assert s[start..|s|] == s[start..];
    assert ReplaceFrom(s, |s|, find, Const(r)) == [];
    assert SplitFrom(s, start, |s|, find) == [s[start..]];
  }

  lemma WeavesHit(s: string, start: nat, i: nat, find: Finder, r: string)
    requires start <= i < |s| && Hit(s, i, find(s, i))
    requires var e := i + find(s, i).value.len;
             s[e..e] + ReplaceFrom(s, e, find, Const(r))
             == Weave(SplitFrom(s, e, e, find), Repeat(r, |SeparatorsFrom(s, e, find)|))
    ensures s[start..i] + ReplaceFrom(s, i, find, Const(r))
            == Weave(SplitFrom(s, start, i, find), Repeat(r, |SeparatorsFrom(s, i, find)|))
  {
    var e := i + find(s, i).value.len;
    var rest := SplitFrom(s, e, e, find);
    var tail := ReplaceFrom(s, e, find, Const(r));
    var n := |SeparatorsFrom(s, e, find)|;
    assert s[e..e] == [];
    assert [] + tail == tail;
    ConstHit(s, i, find, r);
    SplitHitStep(s, start, i, find);
    RepeatCons(r, n);
    WeaveCons(s[start..i], rest, r, Repeat(r, n));
    AppendAssoc(s[start..i], r, tail);
  }

  /** At a match, a fixed replacement gives that text. */
  lemma ConstHit(s: string, i: nat, find: Finder, r: string)
    requires i < |s| && Hit(s, i, find(s, i))
    ensures ReplaceFrom(s, i, find, Const(r)) == r + ReplaceFrom(s, i + find(s, i).value.len, find, Const(r))
  {
    ReplaceHit(s, i, find, Const(r));
  }

  /** At a match, `split` closes the current piece and starts a new one after the match. */
  lemma SplitHitStep(s: string, start: nat, i: nat, find: Finder)
    requires start <= i < |s| && Hit(s, i, find(s, i))
    ensures var e := i + find(s, i).value.len;
            && SplitFrom(s, start, i, find) == [s[start..i]] + SplitFrom(s, e, e, find)
            && |SeparatorsFrom(s, i, find)| == |SeparatorsFrom(s, e, find)| + 1
  {
  }

  lemma RepeatCons(x: string, n: nat)
    ensures Repeat(x, n + 1) == [x] + Repeat(x, n)
  {
  }

  lemma WeavesMiss(s: string, start: nat, i: nat, find: Finder, r: string)
    requires start <= i < |s| && !Hit(s, i, find(s, i))
    requires s[start..i + 1] + ReplaceFrom(s, i + 1, find, Const(r))
             == Weave(SplitFrom(s, start, i + 1, find), Repeat(r, |SeparatorsFrom(s, i + 1, find)|))
    ensures s[start..i] + ReplaceFrom(s, i, find, Const(r))
            == Weave(SplitFrom(s, start, i, find), Repeat(r, |SeparatorsFrom(s, i, find)|))
  {
    ReplaceMiss(s, i, find, Const(r));
    SliceGrow(s, start, i);
    assert SplitFrom(s, start, i, find) == SplitFrom(s, start, i + 1, find);
    assert SeparatorsFrom(s, i, find) == SeparatorsFrom(s, i + 1, find);
  }

  /** Weaving a piece in front of at least one more piece puts the fill between them. */
  lemma WeaveCons(p: string, rest: seq<string>, f: string, fills: seq<string>)
    requires |rest| >= 1
    ensures Weave([p] + rest, [f] + fills) == p + f + Weave(rest, fills)
  {
    assert ([p] + rest)[1..] == rest;
  }

  /** A literal pattern only ever matches itself, so every separator is the pattern. */
  lemma {:induction false} LiteralSeparators(s: string, i: nat, p: string)
    requires i <= |s|
    ensures SeparatorsFrom(s, i, Literal(p)) == Repeat(p, |SeparatorsFrom(s, i, Literal(p))|)
    decreases |s| - i
  {
    if i < |s| {
      var m := Literal(p)(s, i);
      if Hit(s, i, m) {
        LiteralSeparators(s, i + |p|, p);
        var n := |SeparatorsFrom(s, i + |p|, Literal(p))|;
        assert Repeat(p, n + 1) == [p] + Repeat(p, n);
      } else {
        LiteralSeparators(s, i + 1, p);
      }
    }
  }

  /** Every piece `split` gives is a slice of the text, so a string the text lacks no piece contains. */
  lemma {:induction false} PiecesAvoid(s: string, start: nat, i: nat, find: Finder, p: string)
    requires start <= i <= |s| && !Contains(s, p)
    ensures forall k :: 0 <= k < |SplitFrom(s, start, i, find)| ==> !Contains(SplitFrom(s, start, i, find)[k], p)
    decreases |s| - i
  {
    if i == |s| {
      assert s[start..] == s[start..|s|];
      if Contains(s[start..], p) { ContainsWithin(s, start, |s|, p); }
    } else {
      var m := find(s, i);
      if Hit(s, i, m) {
        var e := i + m.value.len;
        PiecesAvoid(s, e, e, find, p);
        if Contains(s[start..i], p) { ContainsWithin(s, start, i, p); }
      } else {
        PiecesAvoid(s, start, i + 1, find, p);
      }
    }
  }

  /**
   * A non-empty pattern whose every occurrence is a match of the separator never
   * lies inside a piece `split` gives.
   */
  lemma {:induction false} PiecesAvoidMatched(s: string, start: nat, i: nat, find: Finder, p: string)
    requires start <= i <= |s| && |p| > 0
    requires forall j :: start <= j < i ==> !Hit(s, j, find(s, j))
    requires forall j :: 0 <= j < |s| && Occurs(s, p, j) ==> Hit(s, j, find(s, j))
    ensures forall k :: 0 <= k < |SplitFrom(s, start, i, find)| ==> !Contains(SplitFrom(s, start, i, find)[k], p)
    decreases |s| - i
  {
    if i == |s| {
      assert s[start..] == s[start..|s|];
      if Contains(s[start..], p) {
        var k := OccursWithin(s, start, |s|, p);
        assert false;
      }
    } else {
      var m := find(s, i);
      if Hit(s, i, m) {
        var e := i + m.value.len;
        PiecesAvoidMatched(s, e, e, find, p);
        if Contains(s[start..i], p) {
          var k := OccursWithin(s, start, i, p);
          assert false;
        }
      } else {
        PiecesAvoidMatched(s, start, i + 1, find, p);
      }
    }
  }

  /** Where no match starts between `i` and `k`, the current piece simply grows. */
  lemma {:induction false} SplitCopies(s: string, start: nat, i: nat, k: nat, find: Finder)
    requires start <= i <= k <= |s|
    requires forall j :: i <= j < k ==> !Hit(s, j, find(s, j))
    ensures SplitFrom(s, start, i, find) == SplitFrom(s, start, k, find)
    decreases k - i
  {
    if i < k {
      SplitCopies(s, start, i + 1, k, find);
    }
  }

  /** Where no match starts between `i` and `k`, that stretch is copied. */
  lemma {:induction false} ReplaceCopies(s: string, i: nat, k: nat, find: Finder, render: Render)
    requires i <= k <= |s|
    requires forall j :: i <= j < k ==> !Hit(s, j, find(s, j))
    ensures ReplaceFrom(s, i, find, render) == s[i..k] + ReplaceFrom(s, k, find, render)
    decreases k - i
  {
    if i < k {
      ReplaceCopies(s, i + 1, k, find, render);
      CopyStep(s, i, k, find, render);
    }
  }

  /** A text with exactly one match, from `h` to `e`: the stretches around it are copied. */
  lemma ReplaceOnlyHit(s: string, h: nat, e: nat, find: Finder, render: Render, g: seq<string>, out: string)
    requires h < e <= |s| && find(s, h) == Some(Match(e - h, g)) && render(s[h..e], g) == out
    requires forall j :: 0 <= j < h ==> !Hit(s, j, find(s, j))
    requires forall j :: e <= j < |s| ==> !Hit(s, j, find(s, j))
    ensures ReplaceAll(s, find, render) == s[0..h] + out + s[e..]
  {
    ReplaceCopies(s, 0, h, find, render);
    ReplaceHitTo(s, h, find, render, e - h, g, out, e);
    ReplaceNoHit(s, e, find, render);
  }

  lemma CopyStep(s: string, i: nat, k: nat, find: Finder, render: Render)
    requires i < k <= |s| && !Hit(s, i, find(s, i))
    requires ReplaceFrom(s, i + 1, find, render) == s[i + 1..k] + ReplaceFrom(s, k, find, render)
    ensures ReplaceFrom(s, i, find, render) == s[i..k] + ReplaceFrom(s, k, find, render)
  {
    ReplaceMiss(s, i, find, render);
    assert s[i..k] == [s[i]] + s[i + 1..k];
    AppendAssoc([s[i]], s[i + 1..k], ReplaceFrom(s, k, find, render));
  }

  /** `x` holds `b` from offset `d` on, and at index `t` of `b` the pattern matches in `x` as it does in `b`. */
  predicate SameAt(x: string, d: nat, b: string, t: nat, find: Finder) {
    d + t < |x| && t < |b| && x[d + t] == b[t] && find(x, d + t) == find(b, t)
  }

  lemma SliceMatch(x: string, d: nat, b: string, j: nat, k: nat, find: Finder)
    requires j <= k <= |b| && d + |b| == |x|
    requires forall t :: j <= t < k ==> SameAt(x, d, b, t, find)
    ensures x[d + j..d + k] == b[j..k]
  {
    forall q | 0 <= q < k - j ensures x[d + j..d + k][q] == b[j..k][q] {
      assert SameAt(x, d, b, j + q, find);
    }
  }

  /** From index `j` of `b` on, `x` continues as `b` and the pattern matches alike. */
  predicate SameFrom(x: string, d: nat, b: string, j: nat, find: Finder) {
    forall t :: j <= t < |b| ==> SameAt(x, d, b, t, find)
  }

  lemma SameFromLater(x: string, d: nat, b: string, j: nat, k: nat, find: Finder)
    requires j <= k && SameFrom(x, d, b, j, find)
    ensures SameFrom(x, d, b, k, find)
  {
  }

  /** Where `x` continues as `b` and the pattern matches alike, the two scans give the same result. */
  lemma {:induction false} ReplaceBy(x: string, d: nat, b: string, j: nat, find: Finder, render: Render)
    requires j <= |b| && d + |b| == |x|
    requires SameFrom(x, d, b, j, find)
    ensures ReplaceFrom(x, d + j, find, render) == ReplaceFrom(b, j, find, render)
    decreases |b| - j, 1
  {
    if j == |b| {
      assert ReplaceFrom(x, d + j, find, render) == [];
    } else if Hit(b, j, find(b, j)) {
      ReplaceByHit(x, d, b, j, find, render);
    } else {
      ReplaceByMiss(x, d, b, j, find, render);
    }
  }

  /** The step of `ReplaceBy` at a match: the same replacement in both, then the scans after it. */
  lemma {:induction false} ReplaceByHit(x: string, d: nat, b: string, j: nat, find: Finder, render: Render)
    requires j < |b| && d + |b| == |x| && Hit(b, j, find(b, j))
    requires SameFrom(x, d, b, j, find)
    ensures ReplaceFrom(x, d + j, find, render) == ReplaceFrom(b, j, find, render)
    decreases |b| - j, 0
  {
    SameFromLater(x, d, b, j, j + find(b, j).value.len, find);
    ReplaceBy(x, d, b, j + find(b, j).value.len, find, render);
    HitAlike(x, d, b, j, find);
    HitStep(x, d, b, j, find, render);
  }

  lemma HitStep(x: string, d: nat, b: string, j: nat, find: Finder, render: Render)
    requires j < |b| && d + |b| == |x| && Hit(b, j, find(b, j))
    requires find(x, d + j) == find(b, j)
    requires x[d + j..d + j + find(b, j).value.len] == b[j..j + find(b, j).value.len]
    requires ReplaceFrom(x, d + (j + find(b, j).value.len), find, render) == ReplaceFrom(b, j + find(b, j).value.len, find, render)
    ensures ReplaceFrom(x, d + j, find, render) == ReplaceFrom(b, j, find, render)
  {
    var n := find(b, j).value.len;
    assert (d + j) + n == d + (j + n);
    ShiftHit(x, d + j, b, j, find, render);
  }

  /** The step of `ReplaceBy` where nothing matches: the same character in both, then the scans after it. */
  lemma {:induction false} ReplaceByMiss(x: string, d: nat, b: string, j: nat, find: Finder, render: Render)
    requires j < |b| && d + |b| == |x| && !Hit(b, j, find(b, j))
    requires SameFrom(x, d, b, j, find)
    ensures ReplaceFrom(x, d + j, find, render) == ReplaceFrom(b, j, find, render)
    decreases |b| - j, 0
  {
    SameFromLater(x, d, b, j, j + 1, find);
    ReplaceBy(x, d, b, j + 1, find, render);
    assert SameAt(x, d, b, j, find);
    ShiftMiss(x, d + j, b, j, find, render);
  }

  /** At a match in `b`, `x` matches alike and holds the same matched text. */
  lemma HitAlike(x: string, d: nat, b: string, j: nat, find: Finder)
    requires j < |b| && d + |b| == |x| && Hit(b, j, find(b, j))
    requires SameFrom(x, d, b, j, find)
    ensures find(x, d + j) == find(b, j)
    ensures x[d + j..d + j + find(b, j).value.len] == b[j..j + find(b, j).value.len]
  {
    SliceMatch(x, d, b, j, j + find(b, j).value.len, find);
    assert SameAt(x, d, b, j, find);
  }

  lemma ShiftHit(x: string, i: nat, b: string, j: nat, find: Finder, render: Render)
    requires i < |x| && j < |b| && Hit(b, j, find(b, j)) && find(x, i) == find(b, j)
    requires i + find(b, j).value.len <= |x|
    requires x[i..i + find(b, j).value.len] == b[j..j + find(b, j).value.len]
    requires ReplaceFrom(x, i + find(b, j).value.len, find, render) == ReplaceFrom(b, j + find(b, j).value.len, find, render)
    ensures ReplaceFrom(x, i, find, render) == ReplaceFrom(b, j, find, render)
  {
    ReplaceHit(x, i, find, render);
    ReplaceHit(b, j, find, render);
  }

  lemma ShiftMiss(x: string, i: nat, b: string, j: nat, find: Finder, render: Render)
    requires i < |x| && j < |b| && x[i] == b[j] && !Hit(x, i, find(x, i)) && !Hit(b, j, find(b, j))
    requires ReplaceFrom(x, i + 1, find, render) == ReplaceFrom(b, j + 1, find, render)
    ensures ReplaceFrom(x, i, find, render) == ReplaceFrom(b, j, find, render)
  {
    ReplaceMiss(x, i, find, render);
    ReplaceMiss(b, j, find, render);
  }

  /** A pattern that only looks forward is replaced in the suffix as it would be on its own. */
  lemma ReplaceShift(a: string, b: string, j: nat, find: Finder, render: Render)
    requires j <= |b|
    requires forall t :: j <= t < |b| ==> find(a + b, |a| + t) == find(b, t)
    ensures ReplaceFrom(a + b, |a| + j, find, render) == ReplaceFrom(b, j, find, render)
  {
    forall t | j <= t < |b| ensures SameAt(a + b, |a|, b, t, find) {
      assert (a + b)[|a| + t] == b[t];
    }
    ReplaceBy(a + b, |a|, b, j, find, render);
  }

  /** Where `x` continues as `b` and the pattern matches alike, the separators found are the same. */
  lemma {:induction false} SeparatorsBy(x: string, d: nat, b: string, j: nat, find: Finder)
    requires j <= |b| && d + |b| == |x|
    requires forall t :: j <= t < |b| ==> SameAt(x, d, b, t, find)
    ensures SeparatorsFrom(x, d + j, find) == SeparatorsFrom(b, j, find)
    decreases |b| - j
  {
    if j < |b| {
      assert SameAt(x, d, b, j, find);
      if Hit(b, j, find(b, j)) {
        var e := find(b, j).value.len;
        SeparatorsBy(x, d, b, j + e, find);
        SliceMatch(x, d, b, j, j + e, find);
        SeparatorsHitStep(x, d + j, b, j, find);
      } else {
        SeparatorsBy(x, d, b, j + 1, find);
        SeparatorsMissStep(x, d + j, b, j, find);
      }
    }
  }

  lemma SeparatorsHitStep(x: string, i: nat, b: string, j: nat, find: Finder)
    requires i < |x| && j < |b| && Hit(b, j, find(b, j)) && find(x, i) == find(b, j)
    requires i + find(b, j).value.len <= |x|
    requires x[i..i + find(b, j).value.len] == b[j..j + find(b, j).value.len]
    requires SeparatorsFrom(x, i + find(b, j).value.len, find) == SeparatorsFrom(b, j + find(b, j).value.len, find)
    ensures SeparatorsFrom(x, i, find) == SeparatorsFrom(b, j, find)
  {
  }

  lemma SeparatorsMissStep(x: string, i: nat, b: string, j: nat, find: Finder)
    requires i < |x| && j < |b| && !Hit(x, i, find(x, i)) && !Hit(b, j, find(b, j))
    requires SeparatorsFrom(x, i + 1, find) == SeparatorsFrom(b, j + 1, find)
    ensures SeparatorsFrom(x, i, find) == SeparatorsFrom(b, j, find)
  {
  }

  /** The separators in the suffix are found as they would be on its own. */
  lemma SeparatorsShift(a: string, b: string, j: nat, find: Finder)
    requires j <= |b|
    requires forall t :: j <= t < |b| ==> find(a + b, |a| + t) == find(b, t)
    ensures SeparatorsFrom(a + b, |a| + j, find) == SeparatorsFrom(b, j, find)
  {
    forall t | j <= t < |b| ensures SameAt(a + b, |a|, b, t, find) {
      assert (a + b)[|a| + t] == b[t];
    }
    SeparatorsBy(a + b, |a|, b, j, find);
  }

  lemma {:induction false} SeparatorsNoHit(s: string, i: nat, find: Finder)
    requires i <= |s|
    requires forall j :: i <= j < |s| ==> !Hit(s, j, find(s, j))
    ensures SeparatorsFrom(s, i, find) == []
    decreases |s| - i
  {
    if i < |s| {
      SeparatorsNoHit(s, i + 1, find);
    }
  }

  /** A literal pattern at the front is the first separator; the rest are found in what follows. */
  lemma SeparatorsAtFront(p: string, rest: string)
    requires |p| > 0
    ensures SeparatorsFrom(p + rest, 0, Literal(p)) == [p] + SeparatorsFrom(rest, 0, Literal(p))
  {
    SeparatorsFrontHit(p, rest);
    LiteralShifts(p, p, rest);
    SeparatorsShift(p, rest, 0, Literal(p));
  }

  lemma SeparatorsFrontHit(p: string, rest: string)
    requires |p| > 0
    ensures SeparatorsFrom(p + rest, 0, Literal(p)) == [p] + SeparatorsFrom(p + rest, |p|, Literal(p))
  {
    SliceLeft(p, rest, 0, |p|);
    assert p[0..|p|] == p;
    assert Literal(p)(p + rest, 0) == Some(Match(|p|, []));
  }

  /** A literal pattern only looks forward. */
  lemma LiteralShifts(p: string, a: string, b: string)
    ensures forall t :: 0 <= t < |b| ==> Literal(p)(a + b, |a| + t) == Literal(p)(b, t)
  {
    forall t | 0 <= t < |b| ensures Literal(p)(a + b, |a| + t) == Literal(p)(b, t) {
      AtShift(a, b, t, p);
    }
  }
}
