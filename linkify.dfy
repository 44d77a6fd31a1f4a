/**
 * `linkify`: three replacement passes over already escaped text.  The first
 * wraps URLs written with a protocol (`https://`, `http://`, `ftp://`, escaped
 * as `&#x3A;&#47;&#47;`), the second wraps bare domains whose top-level domain
 * is on a fixed list, the third wraps e-mail addresses.  Each pattern is
 * represented by a finder that reproduces the backtracking order of the
 * regular expression: alternatives in their written order, greedy quantifiers
 * tried from the longest to the shortest.  The class `[^\u0000-\u007F]` is read
 * as "any character above U+007F".
 */
module Linkify {
  import opened Text
  import opened Scan

  /** `&#x3A;&#47;&#47;`, the escaped form of `://`. */
  const Sep := "&#x3A;&#47;&#47;"

  /** `&#47;`, the escaped `/` that opens a path. */
  const Slash := "&#47;"

  /** The top-level domains the second pass accepts, in their written order. */
  const Tlds: seq<string> := [
    "com", "org", "net", "edu", "gov", "mil", "io", "co", "us", "uk", "ca", "de", "es", "it", "fr",
    "ru", "jp", "me", "store", "biz", "info", "name", "tv", "app", "ai", "gg", "xyz", "site", "ly", "dev"]

  /** The character references a path may hold besides plain characters, in their written order. */
  const PathEntities: seq<string> := ["&amp;", "&#47;", "&#x3D", "&#x3A;", "&#x3F;", "&#x23;"]

  predicate IsNonAscii(c: char) { c as int > 0x7F }

  /** `[^\u0000-\u007F]|[A-Z0-9.-]` under the `i` flag. */
  predicate IsHostChar(c: char) { IsNonAscii(c) || IsAlnum(c) || c == '.' || c == '-' }

  /** `[^\u0000-\u007F]|[A-Z0-9\.\-\;\,\$\+~_@%]` under the `i` flag. */
  predicate IsPathChar(c: char) {
    IsNonAscii(c) || IsAlnum(c) || c == '.' || c == '-' || c == ';' || c == ',' || c == '$'
    || c == '+' || c == '~' || c == '_' || c == '@' || c == '%'
  }

  /** `[a-zA-Z0-9._-]`. */
  predicate IsEmailChar(c: char) { IsAlnum(c) || c == '.' || c == '_' || c == '-' }

  function Min(a: nat, b: nat): nat { if a <= b then a else b }

  /** `https?&#x3A;&#47;&#47;|ftp&#x3A;&#47;&#47;|@`: the length of the opening, if any. */
  function Opening(s: string, i: nat): (r: Option<nat>)
    ensures r.Some? ==> i + r.value <= |s| && (r.value == 1 || r.value > |Sep|)
    ensures r == Some(1) ==> s[i] == '@'
  {
    if AtIgnoringCase(s, i, "https" + Sep) then Some(|"https" + Sep|)
    else if AtIgnoringCase(s, i, "http" + Sep) then Some(|"http" + Sep|)
    else if AtIgnoringCase(s, i, "ftp" + Sep) then Some(|"ftp" + Sep|)
    else if i < |s| && s[i] == '@' then Some(1)
    else None
  }

  /** The first alternative of `e` (in order) found at `k`, ignoring case, and its length. */
  function FirstAt(s: string, k: nat, e: seq<string>): (r: Option<nat>)
    ensures r.Some? ==> exists t :: t in e && |t| == r.value && AtIgnoringCase(s, k, t)
  {
    if e == [] then None
    else if AtIgnoringCase(s, k, e[0]) then Some(|e[0]|)
    else FirstAt(s, k, e[1..])
  }

  /** The repeated path tokens from `k` on: greedy, each the first alternative that fits. */
  function PathTokens(s: string, k: nat): (n: nat)
    requires k <= |s|
    ensures k + n <= |s|
    decreases |s| - k
  {
    if k == |s| then 0
    else if IsPathChar(s[k]) then 1 + PathTokens(s, k + 1)
    else match FirstAt(s, k, PathEntities)
      case Some(e) => if e > 0 then e + PathTokens(s, k + e) else 0
      case None => 0
  }

  /** `(?:&#47;(...)*)?`: a path, if one starts at `k`. */
  function PathLength(s: string, k: nat): (n: nat)
    requires k <= |s|
    ensures k + n <= |s|
  {
    if AtIgnoringCase(s, k, Slash) then |Slash| + PathTokens(s, k + |Slash|) else 0
  }

  /** The first pass's top-level part: `\.[A-Z]{2,}|&#x3A;[0-9]{2,5}|\.[0-9]{1,3}`. */
  function TldAny(s: string, j: nat): (r: Option<nat>)
    ensures r.Some? ==> j + r.value <= |s| && r.value > 0
  {
    if j < |s| && s[j] == '.' && RunLength(s, j + 1, IsLetter) >= 2 then
      Some(1 + RunLength(s, j + 1, IsLetter))
    else if AtIgnoringCase(s, j, "&#x3A;") && RunLength(s, j + 6, IsDigit) >= 2 then
      Some(6 + Min(RunLength(s, j + 6, IsDigit), 5))
    else if j < |s| && s[j] == '.' && RunLength(s, j + 1, IsDigit) >= 1 then
      Some(1 + Min(RunLength(s, j + 1, IsDigit), 3))
    else None
  }

  /** `\b` after a word character: the end of the text or a character outside `\w`. */
  predicate WordEnd(s: string, e: nat) {
    e >= |s| || !IsWordChar(s[e])
  }

  /** The first listed top-level domain at `k` that ends a word. */
  function FirstTld(s: string, k: nat, ts: seq<string>): (r: Option<nat>)
    ensures r.Some? ==> exists t :: t in ts && |t| == r.value && AtIgnoringCase(s, k, t) && WordEnd(s, k + |t|)
  {
    if ts == [] then None
    else if AtIgnoringCase(s, k, ts[0]) && WordEnd(s, k + |ts[0]|) then Some(|ts[0]|)
    else FirstTld(s, k, ts[1..])
  }

  /** The second pass's top-level part: `\.(?:com|org|...)\b`. */
  function TldListed(s: string, j: nat): (r: Option<nat>)
    ensures r.Some? ==> j + r.value <= |s| && r.value > 0
  {
    if j < |s| && s[j] == '.' then
      match FirstTld(s, j + 1, Tlds)
      case Some(t) => Some(1 + t)
      case None => None
    else None
  }

  /** Which of the two top-level parts a pattern uses. */
  datatype TldKind = AnyTld | ListedTld

  function Tld(kind: TldKind, s: string, j: nat): (r: Option<nat>)
    ensures r.Some? ==> j + r.value <= |s| && r.value > 0
  {
    match kind
    case AnyTld => TldAny(s, j)
    case ListedTld => TldListed(s, j)
  }

  /**
   * `(?:...){2,}` followed by the top-level part: host lengths from `len` down to 2,
   * the first one after which the top-level part matches; the host length and the
   * length of host plus top-level part.
   */
  function Host(kind: TldKind, s: string, h: nat, len: nat): (r: Option<nat>)
    requires h + len <= |s|
    ensures r.Some? ==> h + r.value <= |s| && r.value >= 3
    decreases len
  {
    if len < 2 then None
    else match Tld(kind, s, h + len)
      case Some(t) => Some(len + t)
      case None => Host(kind, s, h, len - 1)
  }

  /** `(?:www\.)?` then host and top-level part, trying with `www.` first. */
  function Domain(kind: TldKind, s: string, h: nat): (r: Option<nat>)
    requires h <= |s|
    ensures r.Some? ==> h + r.value <= |s| && r.value > 0
  {
    var withWww :=
      if AtIgnoringCase(s, h, "www.") then Host(kind, s, h + 4, RunLength(s, h + 4, IsHostChar)) else None;
    if withWww.Some? then Some(4 + withWww.value)
    else Host(kind, s, h, RunLength(s, h, IsHostChar))
  }

  /** The URL that starts at `h` with the opening of length `p` already read: domain, then path. */
  function Url(kind: TldKind, s: string, h: nat): (r: Option<nat>)
    requires h <= |s|
    ensures r.Some? ==> h + r.value <= |s| && r.value > 0
  {
    match Domain(kind, s, h)
    case Some(d) => Some(d + PathLength(s, h + d))
    case None => None
  }

  /** The first pass's pattern: a mandatory opening. */
  function ProtocolUrl(s: string, i: nat): Option<Match>
  {
    if i > |s| then None
    else match Opening(s, i)
      case None => None
      case Some(p) =>
        match Url(AnyTld, s, i + p)
        case Some(u) => Some(Match(p + u, []))
        case None => None
  }

  /** The second pass's pattern: an optional opening, tried with the opening first. */
  function BareUrl(s: string, i: nat): Option<Match>
  {
    if i > |s| then None
    else
      var withOpening := match Opening(s, i)
        case None => None
        case Some(p) => (match Url(ListedTld, s, i + p) case Some(u) => Some(p + u) case None => None);
      if withOpening.Some? then Some(Match(withOpening.value, []))
      else match Url(ListedTld, s, i)
        case Some(u) => Some(Match(u, []))
        case None => None
  }

  /** The domain run of an address has a dot with at least one character on each side. */
  predicate InnerDot(s: string, j: nat, d: nat) {
    exists p: nat | j + 1 <= p && p + 2 <= j + d :: p < |s| && s[p] == '.'
  }

  /** `[a-zA-Z0-9._-]+@[a-zA-Z0-9._-]+\.[a-zA-Z0-9._-]+`. */
  function Email(s: string, i: nat): Option<Match>
  {
    var a := RunLength(s, i, IsEmailChar);
    if a >= 1 && i + a < |s| && s[i + a] == '@' then
      var d := RunLength(s, i + a + 1, IsEmailChar);
      if InnerDot(s, i + a + 1, d) then Some(Match(a + 1 + d, [])) else None
    else None
  }

  const AnchorOpen := "<a style=\"text-decoration: underline; color: var(--complementary); "
  const WordBreak := "word-break: break-all;"

  /** The anchor every pass writes; `blank` adds `target="_blank"`. */
  function Anchor(m: string, href: string, blank: bool): string
  {
    AnchorOpen + (if |m| > 40 then WordBreak else "") + ";\" href=\"" + href + "\""
    + (if blank then " target=\"_blank\">" else ">") + m + "</a>"
  }

  /** The first pass's callback: addresses are left alone, the rest links to itself. */
  function ProtocolLink(m: string, groups: seq<string>): string
  {
    if '@' in m then m else Anchor(m, m, true)
  }

  /** The second pass's callback: addresses and URLs with a protocol are left alone. */
  function BareLink(m: string, groups: seq<string>): string
  {
    if '@' in m || Contains(m, Sep) then m else Anchor(m, "https://" + m, true)
  }

  /** The third pass's callback: a `mailto:` link without a target. */
  function MailLink(m: string, groups: seq<string>): string
  {
    Anchor(m, "mailto:" + m, false)
  }

  function ProtocolPass(s: string): string { ReplaceAll(s, ProtocolUrl, ProtocolLink) }
  function BarePass(s: string): string { ReplaceAll(s, BareUrl, BareLink) }
  function EmailPass(s: string): string { ReplaceAll(s, Email, MailLink) }

  /** `linkify`: the three passes, in order, each on the result of the one before. */
  method Linkify(text: string) returns (r: string)
    ensures r == EmailPass(BarePass(ProtocolPass(text)))
  {
    r := text;
    r := ProtocolPass(r);
    r := BarePass(r);
    r := EmailPass(r);
  }

  // ---------------------------------------------------------------- properties

  /** Every anchor carries `word-break: break-all;`, right after its colour, exactly when the match is longer than 40. */
  lemma AnchorWordBreak(m: string, href: string, blank: bool)
    ensures At(Anchor(m, href, blank), |AnchorOpen|, WordBreak) <==> |m| > 40
  {
    var a := Anchor(m, href, blank);
    if |m| > 40 {
      assert a[|AnchorOpen|..|AnchorOpen| + |WordBreak|] == WordBreak;
    } else {
      assert a[|AnchorOpen|] == ';';
      assert WordBreak[0] == 'w';
    }
  }

  /** A text that is a single match of a pass becomes the anchor (or stays) as the callback says. */
  lemma {:induction false} WholeMatch(s: string, find: Finder, render: Render)
    requires |s| > 0 && find(s, 0) == Some(Match(|s|, []))
    ensures ReplaceAll(s, find, render) == render(s, [])
  {
    assert s[0..|s|] == s;
    assert Hit(s, 0, find(s, 0));
    assert ReplaceFrom(s, |s|, find, render) == [];
    assert ReplaceFrom(s, 0, find, render) == render(s, []) + ReplaceFrom(s, |s|, find, render);
  }

  /** A protocol URL without `@` becomes a link to itself that opens a new tab. */
  lemma ProtocolWhole(s: string)
    requires |s| > 0 && ProtocolUrl(s, 0) == Some(Match(|s|, []))
    ensures ProtocolPass(s) == if '@' in s then s else Anchor(s, s, true)
  {
    WholeMatch(s, ProtocolUrl, ProtocolLink);
  }

  /** A bare domain becomes a link to `https://` plus the domain; with `@` or a protocol it is kept. */
  lemma BareWhole(s: string)
    requires |s| > 0 && BareUrl(s, 0) == Some(Match(|s|, []))
    ensures BarePass(s) == if '@' in s || Contains(s, Sep) then s else Anchor(s, "https://" + s, true)
  {
    WholeMatch(s, BareUrl, BareLink);
  }

  /** An address becomes a `mailto:` link without a target. */
  lemma EmailWhole(s: string)
    requires |s| > 0 && Email(s, 0) == Some(Match(|s|, []))
    ensures EmailPass(s) == Anchor(s, "mailto:" + s, false)
  {
    WholeMatch(s, Email, MailLink);
  }

  /** An e-mail address, read declaratively: a local part, `@`, a domain with an inner dot. */
  predicate IsAddress(m: string) {
    exists a: nat | 1 <= a < |m| ::
      && m[a] == '@'
      && (forall k :: 0 <= k < |m| && k != a ==> IsEmailChar(m[k]))
      && (exists d: nat | a + 2 <= d && d + 2 <= |m| :: m[d] == '.')
  }

  /** The third pass matches at `i` exactly the longest address that starts there. */
  lemma EmailFinds(s: string, i: nat, n: nat)
    requires i + n <= |s|
    ensures Email(s, i) == Some(Match(n, [])) <==>
            IsAddress(s[i..i + n]) && (i + n == |s| || !IsEmailChar(s[i + n]))
  {
    if Email(s, i) == Some(Match(n, [])) {
      EmailIsAddress(s, i, n);
    }
    if IsAddress(s[i..i + n]) && (i + n == |s| || !IsEmailChar(s[i + n])) {
      AddressIsEmail(s, i, n);
    }
  }

  lemma EmailIsAddress(s: string, i: nat, n: nat)
    requires i + n <= |s| && Email(s, i) == Some(Match(n, []))
    ensures IsAddress(s[i..i + n]) && (i + n == |s| || !IsEmailChar(s[i + n]))
  {
    var m := s[i..i + n];
    var a := RunLength(s, i, IsEmailChar);
    var d := RunLength(s, i + a + 1, IsEmailChar);
    assert n == a + 1 + d;
    var p: nat :| i + a + 2 <= p && p + 2 <= i + a + 1 + d && p < |s| && s[p] == '.';
    assert m[a] == '@';
    assert m[p - i] == '.';
    forall j | 0 <= j < |m| && j != a ensures IsEmailChar(m[j]) {
      assert m[j] == s[i + j];
    }
    assert a + 2 <= p - i && p - i + 2 <= |m|;
  }

  lemma AddressIsEmail(s: string, i: nat, n: nat)
    requires i + n <= |s| && IsAddress(s[i..i + n]) && (i + n == |s| || !IsEmailChar(s[i + n]))
    ensures Email(s, i) == Some(Match(n, []))
  {
    var a := AddressRuns(s, i, n);
    assert RunLength(s, i, IsEmailChar) == a;
  }

  /** The local part and the domain of an address that is followed by no address character are maximal runs. */
  lemma AddressRuns(s: string, i: nat, n: nat) returns (a: nat)
    requires i + n <= |s| && IsAddress(s[i..i + n]) && (i + n == |s| || !IsEmailChar(s[i + n]))
    ensures 1 <= a && a + 1 <= n && s[i + a] == '@'
    ensures RunLength(s, i, IsEmailChar) == a
    ensures RunLength(s, i + a + 1, IsEmailChar) == n - a - 1
    ensures InnerDot(s, i + a + 1, n - a - 1)
  {
    var m := s[i..i + n];
    a :| 1 <= a < |m| && m[a] == '@'
      && (forall k :: 0 <= k < |m| && k != a ==> IsEmailChar(m[k]))
      && (exists d: nat | a + 2 <= d && d + 2 <= |m| :: m[d] == '.');
    var d: nat :| a + 2 <= d && d + 2 <= |m| && m[d] == '.';
    AddressChars(s, i, n, a, m);
    SliceChar(s, i, n, a);
    SliceChar(s, i, n, d);
    AddressRunsAt(s, i, n, a);
    assert i + a + 2 <= i + d && i + d + 2 <= i + a + 1 + (n - a - 1);
  }

  lemma SliceChar(s: string, i: nat, n: nat, k: nat)
    requires i + n <= |s| && k < n
    ensures s[i..i + n][k] == s[i + k]
  {
  }

  /** The address characters of the slice, read in the text. */
  lemma AddressChars(s: string, i: nat, n: nat, a: nat, m: string)
    requires i + n <= |s| && a < n && m == s[i..i + n]
    requires forall k :: 0 <= k < |m| && k != a ==> IsEmailChar(m[k])
    ensures forall k :: i <= k < i + n && k != i + a ==> IsEmailChar(s[k])
  {
    forall k | i <= k < i + n && k != i + a ensures IsEmailChar(s[k]) {
      SliceChar(s, i, n, k - i);
    }
  }

  lemma AddressRunsAt(s: string, i: nat, n: nat, a: nat)
    requires i + n <= |s| && 1 <= a < n && s[i + a] == '@'
    requires forall k :: i <= k < i + n && k != i + a ==> IsEmailChar(s[k])
    requires i + n == |s| || !IsEmailChar(s[i + n])
    ensures RunLength(s, i, IsEmailChar) == a
    ensures RunLength(s, i + a + 1, IsEmailChar) == n - a - 1
  {
    assert !IsEmailChar('@');
    RunStops(s, i, a);
    RunStops(s, i + a + 1, n - a - 1);
  }

  /** A run of `IsEmailChar` of length `len` that is followed by another character has exactly that length. */
  lemma {:induction false} RunStops(s: string, i: nat, len: nat)
    requires i + len <= |s|
    requires forall k :: i <= k < i + len ==> IsEmailChar(s[k])
    requires i + len == |s| || !IsEmailChar(s[i + len])
    ensures RunLength(s, i, IsEmailChar) == len
    decreases len
  {
    if len > 0 {
      RunStops(s, i + 1, len - 1);
    }
  }

  /** `https&#x3A;&#47;&#47;`, `http&#x3A;&#47;&#47;` or `ftp&#x3A;&#47;&#47;` at `i`, ignoring case. */
  predicate NamedOpening(s: string, i: nat) {
    AtIgnoringCase(s, i, "https" + Sep) || AtIgnoringCase(s, i, "http" + Sep) || AtIgnoringCase(s, i, "ftp" + Sep)
  }

  /** A first-pass match begins with one of the four openings; so without a named one it begins with `@`. */
  lemma ProtocolMatchOpens(s: string, i: nat)
    requires ProtocolUrl(s, i).Some?
    ensures Opening(s, i).Some?
    ensures !NamedOpening(s, i) ==> i < |s| && s[i] == '@'
  {
  }

  lemma ProtocolKeepsEach(s: string)
    requires forall i :: 0 <= i < |s| ==> !NamedOpening(s, i)
    ensures forall j :: 0 <= j < |s| ==> KeepsAt(s, j, ProtocolUrl, ProtocolLink)
  {
    forall j | 0 <= j < |s| ensures KeepsAt(s, j, ProtocolUrl, ProtocolLink) {
      ProtocolKeepsAt(s, j);
    }
  }

  lemma ProtocolKeepsAt(s: string, j: nat)
    requires j < |s| && !NamedOpening(s, j)
    ensures KeepsAt(s, j, ProtocolUrl, ProtocolLink)
  {
    if Hit(s, j, ProtocolUrl(s, j)) {
      ProtocolKeptAt(s, j);
    } else {
      MissKeeps(s, j, ProtocolUrl, ProtocolLink);
    }
  }

  /** A first-pass match at a position without a named opening holds `@` and is given back unchanged. */
  lemma ProtocolKeptAt(s: string, j: nat)
    requires j < |s| && !NamedOpening(s, j) && Hit(s, j, ProtocolUrl(s, j))
    ensures KeepsAt(s, j, ProtocolUrl, ProtocolLink)
  {
    ProtocolMatchOpens(s, j);
    var m := s[j..j + ProtocolUrl(s, j).value.len];
    assert m[0] == '@';
  }

  /** In a text with no named protocol opening, the first pass changes nothing: all its matches hold `@`. */
  lemma ProtocolPassKeepsAddresses(s: string)
    requires forall i :: 0 <= i < |s| ==> !NamedOpening(s, i)
    ensures ProtocolPass(s) == s
  {
    assert ReplaceFrom(s, 0, ProtocolUrl, ProtocolLink) == s[0..] by {
      ProtocolKeepsEach(s);
      ReplaceIdentity(s, 0, ProtocolUrl, ProtocolLink);
    }
    assert s[0..] == s;
  }

  /**
   * A second-pass match that begins at an opening, and takes it in (which
   * `BareOpenedLength` shows it always does), is left alone, provided the
   * separator is written the way escaping writes it (the pattern ignores case,
   * the `includes` test does not).
   */
  lemma BareKeepsOpened(s: string, i: nat, n: nat, g: seq<string>)
    requires i + n <= |s| && Opening(s, i).Some? && Opening(s, i).value <= n
    requires Opening(s, i).value == 1 || At(s, i + Opening(s, i).value - |Sep|, Sep)
    ensures BareLink(s[i..i + n], g) == s[i..i + n]
  {
    KeptWhenMarked(s, i, n, Opening(s, i).value, g);
  }

  /** A slice that starts with `@`, or holds the separator, is given back by the second callback. */
  lemma KeptWhenMarked(s: string, i: nat, n: nat, p: nat, g: seq<string>)
    requires i + n <= |s| && 1 <= p <= n
    requires (p == 1 && s[i] == '@') || (p >= |Sep| && At(s, i + p - |Sep|, Sep))
    ensures BareLink(s[i..i + n], g) == s[i..i + n]
  {
    if p == 1 && s[i] == '@' {
      assert s[i..i + n][0] == '@';
    } else {
      SliceContains(s, i, n, p - |Sep|, Sep);
    }
  }

  /** A pattern found inside a slice is contained in the slice. */
  lemma SliceContains(s: string, i: nat, n: nat, k: nat, t: string)
    requires i + n <= |s| && k + |t| <= n && At(s, i + k, t)
    ensures Contains(s[i..i + n], t)
  {
    var m := s[i..i + n];
    forall j | 0 <= j < |t| ensures m[k + j] == t[j] {
      assert m[k + j] == s[i + k + j] == s[i + k..i + k + |t|][j];
    }
    assert m[k..k + |t|] == t;
    assert Occurs(m, t, k);
  }

  /** When a second-pass match begins at an opening, the opening is part of it. */
  lemma BareOpenedLength(s: string, i: nat)
    requires Hit(s, i, BareUrl(s, i)) && Opening(s, i).Some?
    ensures Opening(s, i).value <= BareUrl(s, i).value.len
    ensures Opening(s, i).value == 1 ==> s[i] == '@'
  {
    NoDomainAtOpening(s, i);
  }

  /** Text that differs from a pattern in its first character, without case, does not match it. */
  lemma FirstCharDiffers(s: string, i: nat, p: string)
    requires i < |s| && |p| > 0 && ToLower(s[i]) != ToLower(p[0])
    ensures !AtIgnoringCase(s, i, p)
  {
  }

  /** A character matched without case against one that is not a dot is not a dot. */
  lemma NotDotInOpening(s: string, i: nat, word: string, k: nat)
    requires AtIgnoringCase(s, i, word) && i <= k < i + |word| && word[k - i] != '.'
    ensures s[k] != '.'
  {
    AtIgnoringCaseAt(s, i, word, k - i);
  }

  /** Without the opening, no domain can start at an opening: it has no dot before its first non-host character. */
  lemma NoDomainAtOpening(s: string, i: nat)
    requires Opening(s, i).Some?
    ensures Url(ListedTld, s, i).None?
  {
    var run := RunLength(s, i, IsHostChar);
    if Opening(s, i).value == 1 {
      assert s[i] == '@' && !IsHostChar(s[i]);
      FirstCharDiffers(s, i, "www.");
      NoDotNoHost(s, i, run);
    } else {
      var word := if AtIgnoringCase(s, i, "https" + Sep) then "https" + Sep
                  else if AtIgnoringCase(s, i, "http" + Sep) then "http" + Sep
                  else "ftp" + Sep;
      var w := |word| - |Sep|;
      assert AtIgnoringCase(s, i, word);
      AtIgnoringCaseAt(s, i, word, 0);
      assert word[0] != 'w';
      FirstCharDiffers(s, i, "www.");
      AtIgnoringCaseAt(s, i, word, w);
      assert word[w] == '&';
      assert run <= w;
      forall k | i + 2 <= k <= i + run && k < |s| ensures s[k] != '.' {
        NotDotInOpening(s, i, word, k);
      }
      NoDotNoHost(s, i, run);
    }
  }

  /** With no dot after the host's first two characters, no host of length at most `len` is followed by a listed domain. */
  lemma {:induction false} NoDotNoHost(s: string, h: nat, len: nat)
    requires h + len <= |s|
    requires forall k :: h + 2 <= k <= h + len && k < |s| ==> s[k] != '.'
    ensures Host(ListedTld, s, h, len).None?
    decreases len
  {
    if len >= 2 {
      NoDotNoHost(s, h, len - 1);
    }
  }
  /** A case-insensitive match compares each character of the pattern with the one at the same offset. */
  lemma CharUnderCase(s: string, i: nat, p: string, k: nat)
    requires k < |p|
    ensures AtIgnoringCase(s, i, p) ==> i + k < |s| && ToLower(s[i + k]) == ToLower(p[k])
  {
    if AtIgnoringCase(s, i, p) {
      AtIgnoringCaseAt(s, i, p, k);
    }
  }

  /** No opening starts in a text without `&` and `@`. */
  lemma NoOpening(s: string, i: nat)
    requires '&' !in s && '@' !in s
    ensures Opening(s, i).None?
  {
    CharUnderCase(s, i, "https" + Sep, 5);
    CharUnderCase(s, i, "http" + Sep, 4);
    CharUnderCase(s, i, "ftp" + Sep, 3);
  }

  /** No listed domain starts in a text without a dot. */
  lemma NoListedUrl(s: string, i: nat)
    requires i <= |s| && '.' !in s
    ensures Url(ListedTld, s, i).None?
  {
    CharUnderCase(s, i, "www.", 3);
    NoDotNoHost(s, i, RunLength(s, i, IsHostChar));
  }

  /** Text without `&`, `@` and `.` holds no URL and no address: the three passes leave it as it is. */
  lemma LinkifyQuiet(s: string)
    requires '&' !in s && '@' !in s && '.' !in s
    ensures EmailPass(BarePass(ProtocolPass(s))) == s
  {
    forall j | 0 <= j < |s| ensures ProtocolUrl(s, j).None? && BareUrl(s, j).None? {
      NoOpening(s, j);
      NoListedUrl(s, j);
    }
    ReplaceNoHit(s, 0, ProtocolUrl, ProtocolLink);
    ReplaceNoHit(s, 0, BareUrl, BareLink);
    ReplaceNoHit(s, 0, Email, MailLink);
    assert s[0..] == s;
  }
}
