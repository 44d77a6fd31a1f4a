/**
 * The placeholder mechanism of `convertMarkdown`: text that must not be touched by
 * the markdown rules is pushed onto a queue and replaced by a fixed placeholder
 * word; after the rules ran, each placeholder, from left to right, is replaced by
 * what `shift()` takes off the front of the queue, or by the empty string once
 * the queue is exhausted.
 */
module Placeholder {
  import opened Text
  import opened Scan

  /** No proper suffix of `ph` is also a prefix of it, so two occurrences never overlap. */
  predicate NoBorder(ph: string) {
    forall d :: 1 <= d < |ph| ==> ph[d..] != ph[..|ph| - d]
  }

  /** `text.replace(new RegExp(ph, 'g'), () => queue.shift() || '')`, from index `i` on. */
  function RestoreFrom(s: string, i: nat, ph: string, q: seq<string>): string
    requires i <= |s| && |ph| > 0
    decreases |s| - i
  {
    if i == |s| then []
    else if At(s, i, ph) then Front(q) + RestoreFrom(s, i + |ph|, ph, Behind(q))
    else [s[i]] + RestoreFrom(s, i + 1, ph, q)
  }

  /** What is left of the queue after the restoring pass. */
  function LeftFrom(s: string, i: nat, ph: string, q: seq<string>): seq<string>
    requires i <= |s| && |ph| > 0
    decreases |s| - i
  {
    if i == |s| then q
    else if At(s, i, ph) then LeftFrom(s, i + |ph|, ph, Behind(q))
    else LeftFrom(s, i + 1, ph, q)
  }

  /**
   * The restoring pass as the source runs it: a left-to-right scan that shifts
   * the queue at each placeholder.
   */
  method Restore(text: string, ph: string, queue: seq<string>) returns (r: string, rest: seq<string>)
    requires |ph| > 0
    ensures r == RestoreFrom(text, 0, ph, queue)
    ensures rest == LeftFrom(text, 0, ph, queue)
  {
    r, rest := [], queue;
    var i := 0;
    while i < |text|
      invariant i <= |text|
      invariant r + RestoreFrom(text, i, ph, rest) == RestoreFrom(text, 0, ph, queue)
      invariant LeftFrom(text, i, ph, rest) == LeftFrom(text, 0, ph, queue)
      decreases |text| - i
    {
      if At(text, i, ph) {
        RestoreHit(text, i, ph, rest);
        AppendAssoc(r, Front(rest), RestoreFrom(text, i + |ph|, ph, Behind(rest)));
        r := r + Front(rest);
        rest := Behind(rest);
        i := i + |ph|;
      } else {
        RestoreMiss(text, i, ph, rest);
        AppendAssoc(r, [text[i]], RestoreFrom(text, i + 1, ph, rest));
        r := r + [text[i]];
        i := i + 1;
      }
    }
  }

  /**
   * A replacement pass whose callback also pushes onto a queue, as the source's
   * callbacks do: the pushes happen in scan order.
   */
  method Stash(text: string, find: Finder, render: Render, log: Log) returns (r: string, pushed: seq<string>)
    ensures r == ReplaceAll(text, find, render)
    ensures pushed == LogFrom(text, 0, find, log)
  {
    r, pushed := [], [];
    var i := 0;
    while i < |text|
      invariant i <= |text|
      invariant r + ReplaceFrom(text, i, find, render) == ReplaceAll(text, find, render)
      invariant pushed + LogFrom(text, i, find, log) == LogFrom(text, 0, find, log)
      decreases |text| - i
    {
      var m := find(text, i);
      if Hit(text, i, m) {
        var e := i + m.value.len;
        var matched := text[i..e];
        var out, logged := render(matched, m.value.groups), log(matched, m.value.groups);
        StashHit(text, i, find, render, log, r, pushed, e, out, logged);
        pushed := pushed + logged;
        r := r + out;
        i := e;
      } else {
        StashMiss(text, i, find, render, log, r, pushed);
        r := r + [text[i]];
        i := i + 1;
      }
    }
    StashEnd(text, find, render, log);
  }

  /** At a match, the rendering joins the result and the logged text joins the queue. */
  lemma StashHit(text: string, i: nat, find: Finder, render: Render, log: Log, r: string, pushed: seq<string>,
                 e: nat, out: string, logged: seq<string>)
    requires i < |text| && Hit(text, i, find(text, i)) && e == i + find(text, i).value.len
    requires out == render(text[i..e], find(text, i).value.groups)
    requires logged == log(text[i..e], find(text, i).value.groups)
    requires r + ReplaceFrom(text, i, find, render) == ReplaceAll(text, find, render)
    requires pushed + LogFrom(text, i, find, log) == LogFrom(text, 0, find, log)
    ensures (r + out) + ReplaceFrom(text, e, find, render) == ReplaceAll(text, find, render)
    ensures (pushed + logged) + LogFrom(text, e, find, log) == LogFrom(text, 0, find, log)
  {
    ReplaceHit(text, i, find, render);
    LogHit(text, i, find, log);
    AppendAssoc(r, out, ReplaceFrom(text, e, find, render));
    AppendAssoc(pushed, logged, LogFrom(text, e, find, log));
  }

  /** At the end of the text there is nothing left to replace or to log. */
  lemma StashEnd(text: string, find: Finder, render: Render, log: Log)
    ensures ReplaceFrom(text, |text|, find, render) == [] && LogFrom(text, |text|, find, log) == []
  {
  }

  /** Elsewhere, the character is copied and nothing is logged. */
  lemma StashMiss(text: string, i: nat, find: Finder, render: Render, log: Log, r: string, pushed: seq<string>)
    requires i < |text| && !Hit(text, i, find(text, i))
    requires r + ReplaceFrom(text, i, find, render) == ReplaceAll(text, find, render)
    requires pushed + LogFrom(text, i, find, log) == LogFrom(text, 0, find, log)
    ensures (r + [text[i]]) + ReplaceFrom(text, i + 1, find, render) == ReplaceAll(text, find, render)
    ensures pushed + LogFrom(text, i + 1, find, log) == LogFrom(text, 0, find, log)
  {
    ReplaceMiss(text, i, find, render);
    LogMiss(text, i, find, log);
    AppendAssoc(r, [text[i]], ReplaceFrom(text, i + 1, find, render));
  }

  // ------------------------------------------------------------- restoring laws

  /** One step of the restoring pass at a placeholder. */
  lemma RestoreHit(s: string, i: nat, ph: string, q: seq<string>)
    requires i < |s| && |ph| > 0 && At(s, i, ph)
    ensures RestoreFrom(s, i, ph, q) == Front(q) + RestoreFrom(s, i + |ph|, ph, Behind(q))
    ensures LeftFrom(s, i, ph, q) == LeftFrom(s, i + |ph|, ph, Behind(q))
  {
  }

  /** One step of the restoring pass elsewhere. */
  lemma RestoreMiss(s: string, i: nat, ph: string, q: seq<string>)
    requires i < |s| && |ph| > 0 && !At(s, i, ph)
    ensures RestoreFrom(s, i, ph, q) == [s[i]] + RestoreFrom(s, i + 1, ph, q)
    ensures LeftFrom(s, i, ph, q) == LeftFrom(s, i + 1, ph, q)
  {
  }

  /** Where the placeholder does not occur, the text is copied and the queue untouched. */
  lemma {:induction false} RestoreCopies(s: string, i: nat, k: nat, ph: string, q: seq<string>)
    requires i <= k <= |s| && |ph| > 0
    requires forall j :: i <= j < k ==> !At(s, j, ph)
    ensures RestoreFrom(s, i, ph, q) == s[i..k] + RestoreFrom(s, k, ph, q)
    ensures LeftFrom(s, i, ph, q) == LeftFrom(s, k, ph, q)
    decreases k - i
  {
    if i < k {
      RestoreMiss(s, i, ph, q);
      RestoreCopies(s, i + 1, k, ph, q);
      AppendAssoc([s[i]], s[i + 1..k], RestoreFrom(s, k, ph, q));
      assert s[i..k] == [s[i]] + s[i + 1..k];
    } else {
      assert s[i..k] == [];
    }
  }

  /** Restoring from the end of a prefix only looks at the suffix. */
  lemma RestoreSuffix(a: string, b: string, j: nat, ph: string, q: seq<string>)
    requires j <= |b| && |ph| > 0
    ensures RestoreFrom(a + b, |a| + j, ph, q) == RestoreFrom(b, j, ph, q)
    ensures LeftFrom(a + b, |a| + j, ph, q) == LeftFrom(b, j, ph, q)
  {
    forall t | j <= t < |b| ensures CharAt(a + b, |a|, b, t) {
      assert (a + b)[|a| + t] == b[t];
    }
    RestoreTextBy(a + b, |a|, b, j, ph, q);
    RestoreQueueBy(a + b, |a|, b, j, ph, q);
  }

  /** `x` read from offset `d` holds the character `b[t]` at `t`. */
  predicate CharAt(x: string, d: nat, b: string, t: nat) {
    d + t < |x| && t < |b| && x[d + t] == b[t]
  }

  lemma AtBy(x: string, d: nat, b: string, j: nat, ph: string)
    requires j < |b| && d + |b| == |x|
    requires forall t :: j <= t < |b| ==> CharAt(x, d, b, t)
    ensures At(x, d + j, ph) == At(b, j, ph)
  {
    if j + |ph| <= |b| {
      CharsMatch(x, d, b, j, j + |ph|);
    }
  }

  lemma CharsMatch(x: string, d: nat, b: string, j: nat, k: nat)
    requires j <= k <= |b| && d + |b| == |x|
    requires forall t :: j <= t < k ==> CharAt(x, d, b, t)
    ensures x[d + j..d + k] == b[j..k]
  {
    forall q | 0 <= q < k - j ensures x[d + j..d + k][q] == b[j..k][q] {
      assert CharAt(x, d, b, j + q);
    }
  }

  /** Where `x` continues as `b` from offset `d`, restoring gives the same text. */
  lemma {:induction false} RestoreTextBy(x: string, d: nat, b: string, j: nat, ph: string, q: seq<string>)
    requires j <= |b| && d + |b| == |x| && |ph| > 0
    requires forall t :: j <= t < |b| ==> CharAt(x, d, b, t)
    ensures RestoreFrom(x, d + j, ph, q) == RestoreFrom(b, j, ph, q)
    decreases |b| - j
  {
    if j < |b| {
      RestoreTextBy(x, d, b, j + 1, ph, q);
      if j + |ph| <= |b| {
        RestoreTextBy(x, d, b, j + |ph|, ph, Behind(q));
      }
      TextStep(x, d, b, j, ph, q);
    }
  }

  lemma TextStep(x: string, d: nat, b: string, j: nat, ph: string, q: seq<string>)
    requires j < |b| && d + |b| == |x| && |ph| > 0
    requires forall t :: j <= t < |b| ==> CharAt(x, d, b, t)
    requires RestoreFrom(x, d + j + 1, ph, q) == RestoreFrom(b, j + 1, ph, q)
    requires j + |ph| <= |b| ==> RestoreFrom(x, d + j + |ph|, ph, Behind(q)) == RestoreFrom(b, j + |ph|, ph, Behind(q))
    ensures RestoreFrom(x, d + j, ph, q) == RestoreFrom(b, j, ph, q)
  {
    AtBy(x, d, b, j, ph);
    if At(b, j, ph) {
      RestoreHit(x, d + j, ph, q);
      RestoreHit(b, j, ph, q);
    } else {
      assert CharAt(x, d, b, j);
      RestoreMiss(x, d + j, ph, q);
      RestoreMiss(b, j, ph, q);
    }
  }

  /** Where `x` continues as `b` from offset `d`, restoring leaves the same queue. */
  lemma {:induction false} RestoreQueueBy(x: string, d: nat, b: string, j: nat, ph: string, q: seq<string>)
    requires j <= |b| && d + |b| == |x| && |ph| > 0
    requires forall t :: j <= t < |b| ==> CharAt(x, d, b, t)
    ensures LeftFrom(x, d + j, ph, q) == LeftFrom(b, j, ph, q)
    decreases |b| - j
  {
    if j < |b| {
      AtBy(x, d, b, j, ph);
      if At(b, j, ph) {
        RestoreQueueBy(x, d, b, j + |ph|, ph, Behind(q));
        QueueHit(x, d + j, b, j, ph, q);
      } else {
        RestoreQueueBy(x, d, b, j + 1, ph, q);
        QueueMiss(x, d + j, b, j, ph, q);
      }
    }
  }

  lemma QueueHit(x: string, i: nat, b: string, j: nat, ph: string, q: seq<string>)
    requires i < |x| && j < |b| && |ph| > 0 && At(x, i, ph) && At(b, j, ph)
    requires LeftFrom(x, i + |ph|, ph, Behind(q)) == LeftFrom(b, j + |ph|, ph, Behind(q))
    ensures LeftFrom(x, i, ph, q) == LeftFrom(b, j, ph, q)
  {
    RestoreHit(x, i, ph, q);
    RestoreHit(b, j, ph, q);
  }

  lemma QueueMiss(x: string, i: nat, b: string, j: nat, ph: string, q: seq<string>)
    requires i < |x| && j < |b| && |ph| > 0 && !At(x, i, ph) && !At(b, j, ph)
    requires LeftFrom(x, i + 1, ph, q) == LeftFrom(b, j + 1, ph, q)
    ensures LeftFrom(x, i, ph, q) == LeftFrom(b, j, ph, q)
  {
    RestoreMiss(x, i, ph, q);
    RestoreMiss(b, j, ph, q);
  }

  /** Before a placeholder, a piece free of it holds no occurrence, not even one reaching into the placeholder. */
  lemma NoOccurrenceInPiece(p: string, ph: string, w: string, j: nat)
    requires NoBorder(ph) && |ph| > 0 && !Contains(p, ph) && j < |p|
    ensures !At(p + ph + w, j, ph)
  {
    var x := p + ph + w;
    if j + |ph| <= |p| {
      assert !Occurs(p, ph, j);
      assert x[j..j + |ph|] == p[j..j + |ph|];
    } else {
      var d := |p| - j;
      assert ph[d..] != ph[..|ph| - d];
      var t :| 0 <= t < |ph| - d && ph[d..][t] != ph[..|ph| - d][t];
      assert x[j + d + t] == ph[t];
      assert x[j..j + |ph|][d + t] != ph[d + t];
    }
  }

  /** A text with no placeholder is restored to itself, and the queue is untouched. */
  lemma RestoreNothing(s: string, ph: string, q: seq<string>)
    requires |ph| > 0 && !Contains(s, ph)
    ensures RestoreFrom(s, 0, ph, q) == s
    ensures LeftFrom(s, 0, ph, q) == q
  {
    forall j | 0 <= j < |s| ensures !At(s, j, ph) {
      assert !Occurs(s, ph, j);
    }
    RestoreCopies(s, 0, |s|, ph, q);
    assert s[0..|s|] == s;
  }

  /**
   * FIFO: in a text made of placeholder-free pieces with one placeholder between
   * each two, the k-th placeholder is replaced by the k-th queued string, and by
   * the empty string once the queue is exhausted.
   */
  lemma {:induction false} RestoreWeave(pieces: seq<string>, ph: string, q: seq<string>)
    requires |pieces| >= 1 && |ph| > 0 && NoBorder(ph)
    requires forall k :: 0 <= k < |pieces| ==> !Contains(pieces[k], ph)
    ensures RestoreFrom(Weave(pieces, Repeat(ph, |pieces| - 1)), 0, ph, q) == Weave(pieces, q)
    ensures LeftFrom(Weave(pieces, Repeat(ph, |pieces| - 1)), 0, ph, q) == Dropped(q, |pieces| - 1)
    decreases |pieces|
  {
    if |pieces| == 1 {
      RestoreNothing(pieces[0], ph, q);
    } else {
      var p, w := pieces[0], Weave(pieces[1..], Repeat(ph, |pieces| - 2));
      assert Repeat(ph, |pieces| - 1) == [ph] + Repeat(ph, |pieces| - 2);
      assert Weave(pieces, Repeat(ph, |pieces| - 1)) == p + ph + w;
      RestoreStep(p, ph, w, q);
      RestoreWeave(pieces[1..], ph, Behind(q));
    }
  }

  /** A placeholder-free piece, then a placeholder: the piece is copied and the front of the queue takes the placeholder's place. */
  lemma RestoreStep(p: string, ph: string, w: string, q: seq<string>)
    requires |ph| > 0 && NoBorder(ph) && !Contains(p, ph)
    ensures RestoreFrom(p + ph + w, 0, ph, q) == p + Front(q) + RestoreFrom(w, 0, ph, Behind(q))
    ensures LeftFrom(p + ph + w, 0, ph, q) == LeftFrom(w, 0, ph, Behind(q))
  {
    var x := p + ph + w;
    forall j | 0 <= j < |p| ensures !At(x, j, ph) {
      NoOccurrenceInPiece(p, ph, w, j);
    }
    RestoreCopies(x, 0, |p|, ph, q);
    assert x[0..|p|] == p;
    assert x[|p|..|p| + |ph|] == ph;
    assert x == (p + ph) + w;
    RestoreSuffix(p + ph, w, 0, ph, Behind(q));
  }

  /** The queue with its first `n` entries shifted off. */
  function Dropped(q: seq<string>, n: nat): seq<string>
  {
    if n == 0 then q else Dropped(Behind(q), n - 1)
  }

  /** Restoring strings that are the separators between pieces gives back the split text. */
  lemma RestoreRejoins(pieces: seq<string>, x: string, ph: string)
    requires |pieces| >= 1 && |ph| > 0 && NoBorder(ph)
    requires forall k :: 0 <= k < |pieces| ==> !Contains(pieces[k], ph)
    ensures RestoreFrom(Weave(pieces, Repeat(ph, |pieces| - 1)), 0, ph, Repeat(x, |pieces| - 1))
            == Weave(pieces, Repeat(x, |pieces| - 1))
  {
    RestoreWeave(pieces, ph, Repeat(x, |pieces| - 1));
  }
}
