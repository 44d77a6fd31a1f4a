/**
 * Character classes and string helpers shared by the formatter, following the
 * ECMAScript definitions the original code relies on (`\s`, `\d`, `.`, `trim`,
 * `split`, `join`).
 */
module Text {

  datatype Option<+T> = None | Some(value: T)

  /** ECMAScript LineTerminator: what `.` refuses and what `^`/`$` see under the `m` flag. */
  predicate IsLineTerminator(c: char) {
    c == '\n' || c == '\r' || c == '\U{2028}' || c == '\U{2029}'
  }

  /** What `.` accepts. */
  predicate NotLineTerminator(c: char) { !IsLineTerminator(c) }

  /** ECMAScript `\s` (WhiteSpace plus LineTerminator); also what `String.prototype.trim` removes. */
  predicate IsSpace(c: char) {
    || c == '\t' || c == '\n' || c == '\U{B}' || c == '\U{C}' || c == '\r' || c == ' '
    || c == '\U{A0}' || c == '\U{1680}' || ('\U{2000}' <= c <= '\U{200A}')
    || c == '\U{2028}' || c == '\U{2029}' || c == '\U{202F}' || c == '\U{205F}'
    || c == '\U{3000}' || c == '\U{FEFF}'
  }

  predicate IsDigit(c: char) { '0' <= c <= '9' }
  predicate IsUpper(c: char) { 'A' <= c <= 'Z' }
  predicate IsLower(c: char) { 'a' <= c <= 'z' }
  predicate IsLetter(c: char) { IsUpper(c) || IsLower(c) }
  predicate IsAlnum(c: char) { IsLetter(c) || IsDigit(c) }

  /** `[^>]`. */
  predicate NotGt(c: char) { c != '>' }

  /** `\w`, the word characters of `\b` (no `u` flag). */
  predicate IsWordChar(c: char) { IsAlnum(c) || c == '_' }

  /** ASCII upper-casing; other characters are returned unchanged. */
  function ToUpper(c: char): (u: char)
    ensures IsLower(c) ==> IsUpper(u) && u as int == c as int - 32
    ensures !IsLower(c) ==> u == c
  {
    if IsLower(c) then (c as int - 32) as char else c
  }

  /** ASCII lower-casing, used for case-insensitive literal comparison (`i` flag). */
  function ToLower(c: char): (l: char)
    ensures IsUpper(c) ==> IsLower(l) && l as int == c as int + 32
    ensures !IsUpper(c) ==> l == c
  {
    if IsUpper(c) then (c as int + 32) as char else c
  }

  /** `p` occurs in `s` starting at index `k`. */
  predicate Occurs(s: string, p: string, k: nat) {
    k + |p| <= |s| && s[k..k + |p|] == p
  }

  /** `s.includes(p)`. */
  predicate Contains(s: string, p: string) {
    exists k: nat | k <= |s| :: Occurs(s, p, k)
  }

  /** `s` has `p` at index `i` (a sticky literal match). */
  predicate At(s: string, i: nat, p: string) {
    i + |p| <= |s| && s[i..i + |p|] == p
  }

  /** A literal match at `i` starts with the pattern's first character. */
  lemma AtHead(s: string, i: nat, p: string)
    ensures At(s, i, p) && p != [] ==> s[i] == p[0]
  {
    if At(s, i, p) && p != [] {
      assert s[i..i + |p|][0] == s[i];
    }
  }

  /** `s` has `p` at index `i` when ASCII letters are compared without case (`i` flag). */
  predicate AtIgnoringCase(s: string, i: nat, p: string)
    ensures AtIgnoringCase(s, i, p) ==> i + |p| <= |s|
    decreases |p|
  {
    if p == [] then i <= |s|
    else i < |s| && ToLower(s[i]) == ToLower(p[0]) && AtIgnoringCase(s, i + 1, p[1..])
  }

  /** A case-insensitive match compares each character of the pattern with the one at the same offset. */
  lemma {:induction false} AtIgnoringCaseAt(s: string, i: nat, p: string, k: nat)
    requires AtIgnoringCase(s, i, p) && k < |p|
    ensures ToLower(s[i + k]) == ToLower(p[k])
    decreases k
  {
    if k > 0 {
      AtIgnoringCaseAt(s, i + 1, p[1..], k - 1);
    }
  }

  /** The line-break tag and the non-breaking space the formatting stages write. */
  const Br := "<br>"
  const Nbsp := "&nbsp;"

  /** Whether index `i` is at a line start (`^` under the `m` flag). */
  predicate LineStart(s: string, i: nat)
    requires i <= |s|
  {
    i == 0 || IsLineTerminator(s[i - 1])
  }

  /**
   * A lazy `(.*?)` or `([\s\S]*?)` from `k` followed by `t`: the first index at or
   * after `k` where `t` occurs; without `dotAll` no line terminator may be passed.
   */
  function LazyTo(s: string, k: nat, t: string, dotAll: bool): (e: Option<nat>)
    requires k <= |s|
    ensures e.Some? ==> k <= e.value && At(s, e.value, t)
    ensures e.Some? && !dotAll ==> forall j :: k <= j < e.value ==> !IsLineTerminator(s[j])
    ensures e.Some? ==> forall j :: k <= j < e.value ==> !At(s, j, t)
    decreases |s| - k
  {
    if At(s, k, t) then Some(k)
    else if k == |s| || (!dotAll && IsLineTerminator(s[k])) then None
    else LazyTo(s, k + 1, t, dotAll)
  }

  /** `LazyTo` stops at the first place `t` occurs. */
  lemma {:induction false} LazyToFirst(s: string, k: nat, t: string, dotAll: bool, e: nat)
    requires k <= e <= |s| && At(s, e, t)
    requires forall j :: k <= j < e ==> !At(s, j, t)
    requires !dotAll ==> forall j :: k <= j < e ==> !IsLineTerminator(s[j])
    ensures LazyTo(s, k, t, dotAll) == Some(e)
    decreases e - k
  {
    if k < e {
      LazyToFirst(s, k + 1, t, dotAll, e);
    }
  }

  /** Where `t` can be reached, `LazyTo` finds an occurrence, at the latest that one. */
  lemma {:induction false} LazyToFinds(s: string, k: nat, t: string, dotAll: bool, e: nat)
    requires k <= e <= |s| && At(s, e, t)
    requires !dotAll ==> forall j :: k <= j < e ==> !IsLineTerminator(s[j])
    ensures LazyTo(s, k, t, dotAll).Some? && LazyTo(s, k, t, dotAll).value <= e
    decreases e - k
  {
    if k < e && !At(s, k, t) {
      LazyToFinds(s, k + 1, t, dotAll, e);
    }
  }

  /** Number of characters from index `i` on that satisfy `f`, stopping at the first that does not. */
  function RunLength(s: string, i: nat, f: char -> bool): (n: nat)
    ensures i + n <= |s| || (i > |s| && n == 0)
    ensures forall k :: i <= k < i + n ==> f(s[k])
    ensures i + n < |s| ==> !f(s[i + n])
    decreases |s| - i
  {
    if i < |s| && f(s[i]) then 1 + RunLength(s, i + 1, f) else 0
  }

  /** First index at which `p` occurs in `s` (`indexOf`); the empty pattern occurs at 0. */
  function IndexOf(s: string, p: string): (r: Option<nat>)
    ensures r.Some? ==> Occurs(s, p, r.value) && forall j :: 0 <= j < r.value ==> !Occurs(s, p, j)
    ensures r.None? ==> !Contains(s, p)
  {
    IndexFrom(s, p, 0)
  }

  function IndexFrom(s: string, p: string, i: nat): (r: Option<nat>)
    requires forall j :: 0 <= j < i ==> !Occurs(s, p, j)
    ensures r.Some? ==> i <= r.value && Occurs(s, p, r.value) && forall j :: 0 <= j < r.value ==> !Occurs(s, p, j)
    ensures r.None? ==> !Contains(s, p)
    decreases |s| + 1 - i
  {
    if i + |p| > |s| then
      assert forall k: nat :: !Occurs(s, p, k) by {
        forall k: nat ensures !Occurs(s, p, k) {
          if k >= i { assert k + |p| > |s|; }
        }
      }
      None
    else if s[i..i + |p|] == p then Some(i)
    else IndexFrom(s, p, i + 1)
  }

  /** `s.replace(p, r)` with a string pattern: only the first occurrence is replaced. */
  function ReplaceFirst(s: string, p: string, r: string): (t: string)
    ensures !Contains(s, p) ==> t == s
    ensures Contains(s, p) ==> exists k: nat | k <= |s| :: Occurs(s, p, k) && t == s[..k] + r + s[k + |p|..]
  {
    match IndexOf(s, p)
    case None => s
    case Some(k) => s[..k] + r + s[k + |p|..]
  }

  /** The first occurrence determines `indexOf` and hence `replace` with a string pattern. */
  lemma FirstOccurrence(s: string, p: string, k: nat, r: string)
    requires Occurs(s, p, k) && forall j :: 0 <= j < k ==> !Occurs(s, p, j)
    ensures IndexOf(s, p) == Some(k)
    ensures ReplaceFirst(s, p, r) == s[..k] + r + s[k + |p|..]
  {
    var f := IndexOf(s, p);
    assert f.Some? by {
      if f.None? { assert Occurs(s, p, k); }
    }
    assert Occurs(s, p, f.value) && Occurs(s, p, k);
  }

  /** An occurrence in a slice is an occurrence in the whole text, within the slice's bounds. */
  lemma OccursWithin(s: string, a: nat, b: nat, p: string) returns (k: nat)
    requires a <= b <= |s| && Contains(s[a..b], p)
    ensures a <= k && k + |p| <= b && Occurs(s, p, k)
  {
    var o: nat :| o <= b - a && Occurs(s[a..b], p, o);
    forall j | 0 <= j < |p| ensures s[a + o + j] == p[j] {
      assert s[a..b][o..o + |p|][j] == p[j];
    }
    k := a + o;
    assert s[k..k + |p|] == p;
  }

  /** What a slice contains, the whole text contains. */
  lemma ContainsWithin(s: string, a: nat, b: nat, p: string)
    requires a <= b <= |s| && Contains(s[a..b], p)
    ensures Contains(s, p)
  {
    var k := OccursWithin(s, a, b, p);
    assert Occurs(s, p, k);
  }

  /** What follows a prefix is matched the same way with or without the prefix. */
  lemma AtShift(a: string, b: string, j: nat, p: string)
    ensures At(a + b, |a| + j, p) == At(b, j, p)
  {
    if j + |p| <= |b| {
      assert (a + b)[|a| + j..|a| + j + |p|] == b[j..j + |p|];
    }
  }

  lemma {:induction false} RunLengthShift(a: string, b: string, j: nat, f: char -> bool)
    ensures RunLength(a + b, |a| + j, f) == RunLength(b, j, f)
    decreases |b| - j
  {
    if j < |b| {
      assert (a + b)[|a| + j] == b[j];
      RunLengthShift(a, b, j + 1, f);
    }
  }

  /** A pattern longer than the text does not occur in it. */
  lemma TooLong(s: string, p: string)
    requires |p| > |s|
    ensures !Contains(s, p)
  {
    forall k: nat | k <= |s| ensures !Occurs(s, p, k) {}
  }

  /** Concatenation is associative. */
  lemma AppendAssoc<T>(a: seq<T>, b: seq<T>, c: seq<T>)
    ensures (a + b) + c == a + (b + c)
  {
  }

  /** A suffix is the stretch up to `e` followed by the suffix from `e`. */
  lemma SliceSplit(s: string, i: nat, e: nat)
    requires i <= e <= |s|
    ensures s[i..] == s[i..e] + s[e..]
  {
  }

  /** A text is its prefix, a middle stretch and its suffix. */
  lemma SliceThree(w: string, a: nat, b: nat)
    requires a <= b <= |w|
    ensures w == w[..a] + w[a..b] + w[b..]
  {
  }

  /** A stretch that reaches the end is the suffix. */
  lemma SliceToEnd(s: string, i: nat)
    requires i <= |s|
    ensures s[i..|s|] == s[i..]
  {
  }

  /** A stretch grows by the character at its end. */
  lemma SliceGrow(s: string, i: nat, e: nat)
    requires i <= e < |s|
    ensures s[i..e + 1] == s[i..e] + [s[e]]
  {
  }

  /** A stretch of the first part of a concatenation. */
  lemma SliceLeft(a: string, b: string, j: nat, k: nat)
    requires j <= k <= |a|
    ensures (a + b)[j..k] == a[j..k]
  {
  }

  /** A stretch of the second part of a concatenation. */
  lemma SliceRight(a: string, b: string, j: nat, k: nat)
    requires j <= k <= |b|
    ensures (a + b)[|a| + j..|a| + k] == b[j..k]
  {
  }

  /** `s.split(sep)` for a one-character separator. */
  function Split(s: string, sep: char): (parts: seq<string>)
    ensures |parts| >= 1
    ensures forall k :: 0 <= k < |parts| ==> sep !in parts[k]
    decreases |s|
  {
    if s == [] then [[]]
    else
      var rest := Split(s[1..], sep);
      if s[0] == sep then [[]] + rest
      else [[s[0]] + rest[0]] + rest[1..]
  }

  /** `parts.join(sep)`. */
  function Join(parts: seq<string>, sep: string): string
  {
    if |parts| == 0 then []
    else if |parts| == 1 then parts[0]
    else parts[0] + sep + Join(parts[1..], sep)
  }

  /** An empty first part leaves only the separator in front of the joined rest. */
  lemma JoinEmptyHead(ps: seq<string>, sep: string)
    requires ps != []
    ensures Join([[]] + ps, sep) == sep + Join(ps, sep)
  {
    assert ([[]] + ps)[1..] == ps;
  }

  /** A character in front of the first part comes out in front of the joined text. */
  lemma JoinCons(c: char, x: string, ps: seq<string>, sep: string)
    ensures Join([[c] + x] + ps, sep) == [c] + Join([x] + ps, sep)
  {
    if ps != [] {
      assert ([[c] + x] + ps)[1..] == ps;
      assert ([x] + ps)[1..] == ps;
    }
  }

  /** Concatenation of a sequence of strings (`join("")`). */
  function Concat(parts: seq<string>): string
  {
    if parts == [] then [] else parts[0] + Concat(parts[1..])
  }

  /** Splitting a word glued to the front of a text glues it to the first part. */
  lemma {:induction false} SplitWord(w: string, t: string, sep: char)
    requires sep !in w
    ensures Split(w + t, sep) == [w + Split(t, sep)[0]] + Split(t, sep)[1..]
    decreases |w|
  {
    if w == [] {
      assert w + t == t;
      var parts := Split(t, sep);
      assert parts == [parts[0]] + parts[1..];
      assert w + parts[0] == parts[0];
    } else {
      SplitWord(w[1..], t, sep);
      assert (w + t)[0] == w[0] && (w + t)[1..] == w[1..] + t;
      assert [w[0]] + (w[1..] + Split(t, sep)[0]) == w + Split(t, sep)[0];
    }
  }

  /** Joining words that lack the separator and splitting again gives the words back. */
  lemma {:induction false} SplitJoin(ws: seq<string>, sep: char)
    requires |ws| >= 1 && forall k :: 0 <= k < |ws| ==> sep !in ws[k]
    ensures Split(Join(ws, [sep]), sep) == ws
    decreases |ws|
  {
    if |ws| == 1 {
      SplitWord(ws[0], [], sep);
      assert ws[0] + [] == ws[0];
    } else {
      var j := Join(ws[1..], [sep]);
      SplitJoin(ws[1..], sep);
      assert Join(ws, [sep]) == ws[0] + ([sep] + j);
      SplitWord(ws[0], [sep] + j, sep);
      assert ([sep] + j)[0] == sep && ([sep] + j)[1..] == j;
      assert Split([sep] + j, sep) == [[]] + ws[1..];
      assert ws[0] + [] == ws[0];
    }
  }

  /** A join cut after `n` parts. */
  lemma {:induction false} JoinCut(ws: seq<string>, n: nat, sep: string)
    requires 0 < n < |ws|
    ensures Join(ws, sep) == Join(ws[..n], sep) + sep + Join(ws[n..], sep)
    decreases n
  {
    if n == 1 {
      assert ws[..1] == [ws[0]] && ws[1..] == ws[n..];
    } else {
      JoinCut(ws[1..], n - 1, sep);
      assert ws[1..][..n - 1] == ws[..n][1..];
      assert ws[1..][n - 1..] == ws[n..];
    }
  }

  /** Splitting on a character and joining with the same character gives the string back. */
  lemma {:induction false} JoinSplit(s: string, sep: char)
    ensures Join(Split(s, sep), [sep]) == s
    decreases |s|
  {
    if s != [] {
      JoinSplit(s[1..], sep);
      var rest := Split(s[1..], sep);
      if s[0] == sep {
        assert Split(s, sep) == [[]] + rest;
      } else {
        var parts := Split(s, sep);
        assert parts == [[s[0]] + rest[0]] + rest[1..];
        if |rest| == 1 {
          assert parts == [[s[0]] + rest[0]];
        } else {
          assert parts[1..] == rest[1..];
          assert Join(rest, [sep]) == rest[0] + [sep] + Join(rest[1..], [sep]);
        }
      }
    }
  }

  lemma {:induction false} JoinAppend(parts: seq<string>, sep: string, last: string)
    requires parts != []
    ensures Join(parts + [last], sep) == Join(parts, sep) + sep + last
  {
    if |parts| == 1 {
      assert parts + [last] == [parts[0], last];
    } else {
      assert (parts + [last])[1..] == parts[1..] + [last];
      JoinAppend(parts[1..], sep, last);
    }
  }

  lemma {:induction false} ConcatAppend(parts: seq<string>, last: string)
    ensures Concat(parts + [last]) == Concat(parts) + last
  {
    if parts == [] {
      assert [] + [last] == [last];
    } else {
      assert (parts + [last])[1..] == parts[1..] + [last];
      ConcatAppend(parts[1..], last);
    }
  }

  /** `n.toString()` for a natural number. */
  function NatToString(n: nat): (s: string)
    ensures |s| >= 1 && forall k :: 0 <= k < |s| ==> IsDigit(s[k])
  {
    if n < 10 then [('0' as int + n) as char]
    else NatToString(n / 10) + [('0' as int + n % 10) as char]
  }

  function TrimStartLength(s: string): (n: nat)
    ensures n <= |s|
  {
    RunLength(s, 0, IsSpace)
  }

  function TrimEndLength(s: string): (n: nat)
    ensures n <= |s|
    ensures forall k :: |s| - n <= k < |s| ==> IsSpace(s[k])
    ensures n < |s| ==> !IsSpace(s[|s| - 1 - n])
    decreases |s|
  {
    if s != [] && IsSpace(s[|s| - 1]) then 1 + TrimEndLength(s[..|s| - 1]) else 0
  }

  /** `s.trim()`: the longest middle part that neither starts nor ends with white space. */
  function Trim(s: string): (t: string)
    ensures exists lo: nat, hi: nat ::
              && lo <= hi <= |s| && t == s[lo..hi]
              && (forall k :: 0 <= k < lo ==> IsSpace(s[k]))
              && (forall k :: hi <= k < |s| ==> IsSpace(s[k]))
    ensures t != [] ==> !IsSpace(t[0]) && !IsSpace(t[|t| - 1])
    ensures (forall k :: 0 <= k < |s| ==> IsSpace(s[k])) ==> t == []
  {
    var lo := TrimStartLength(s);
    var hi := |s| - TrimEndLength(s[lo..]);
    TrimBounds(s, lo, hi);
    s[lo..hi]
  }

  /** Where the trimmed part starts and ends. */
  lemma TrimBounds(s: string, lo: nat, hi: nat)
    requires lo == TrimStartLength(s) && hi == |s| - TrimEndLength(s[lo..])
    ensures lo <= hi <= |s|
    ensures forall k :: 0 <= k < lo ==> IsSpace(s[k])
    ensures forall k :: hi <= k < |s| ==> IsSpace(s[k])
    ensures lo < hi ==> !IsSpace(s[lo]) && !IsSpace(s[hi - 1])
    ensures (forall k :: 0 <= k < |s| ==> IsSpace(s[k])) ==> lo == hi
  {
    var rest := s[lo..];
    var m := TrimEndLength(rest);
    forall k | hi <= k < |s| ensures IsSpace(s[k]) {
      assert s[k] == rest[k - lo];
    }
    if lo < hi {
      assert s[hi - 1] == rest[|rest| - 1 - m];
    }
    if forall k :: 0 <= k < |s| ==> IsSpace(s[k]) {
      assert lo == |s|;
    }
  }
}
