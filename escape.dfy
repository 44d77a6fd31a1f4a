/**
 * `escapeHTML` and `unescapeHTML` (src/routes/functions.ts): the mapping between
 * eleven characters and their HTML character references.
 *
 * Escaping replaces each special character by its reference in one left-to-right
 * pass, so nothing it writes is escaped again.  Unescaping scans the text left to
 * right for the alternatives of one regular expression, tried in the order they
 * are written, and replaces each by the character the reference map gives for it.
 * As written, that regular expression spells the reference for `=` without its
 * closing `;`, and that shorter spelling is no key of the map: the callback yields
 * `undefined`, which `replace` turns into the text "undefined".  Both the written
 * unescaper and the evidently intended one are modelled; they differ only in that
 * one alternative.
 */
module Escape {
  import opened Text

  /** The characters `escapeHTML` rewrites. */
  predicate IsSpecial(c: char) {
    || c == '&' || c == '<' || c == '>' || c == '"' || c == '\'' || c == '/'
    || c == '`' || c == '=' || c == ':' || c == '?' || c == '#'
  }

  /** The reference written for a special character. */
  function Entity(c: char): (e: string)
    requires IsSpecial(c)
  {
    if c == '&' then "&amp;"
    else if c == '<' then "&lt;"
    else if c == '>' then "&gt;"
    else if c == '"' then "&quot;"
    else if c == '\'' then "&#39;"
    else if c == '/' then "&#47;"
    else if c == '`' then "&#x60;"
    else if c == '=' then "&#x3D;"
    else if c == ':' then "&#x3A;"
    else if c == '?' then "&#x3F;"
    else "&#x23;"
  }

  /** The map `unescapeHTML` looks matches up in. */
  const UnescapeMap: map<string, string> := map[
    "&amp;" := "&", "&lt;" := "<", "&gt;" := ">", "&quot;" := "\"", "&#39;" := "'",
    "&#47;" := "/", "&#x60;" := "`", "&#x3D;" := "=", "&#x3A;" := ":", "&#x3F;" := "?",
    "&#x23;" := "#"]

  /** The alternatives of the unescaping regular expression, as written (the eighth lacks its `;`). */
  const WrittenTokens: seq<string> := [
    "&amp;", "&lt;", "&gt;", "&quot;", "&#39;", "&#47;", "&#x60;", "&#x3D", "&#x3A;", "&#x3F;", "&#x23;"]

  /** The alternatives as evidently intended: exactly the keys of the map. */
  const FixedTokens: seq<string> := [
    "&amp;", "&lt;", "&gt;", "&quot;", "&#39;", "&#47;", "&#x60;", "&#x3D;", "&#x3A;", "&#x3F;", "&#x23;"]

  /** A character that is not in HTML's markup syntax as a raw character once escaped. */
  predicate IsInert(c: char) {
    c != '<' && c != '>' && c != '"' && c != '\'' && c != '/' && c != '`' && c != '=' && c != ':' && c != '?'
  }

  function EscapeChar(c: char): string
  {
    if IsSpecial(c) then Entity(c) else [c]
  }

  /** `escapeHTML`: each special character becomes its reference, every other character stays. */
  function EscapeHTML(s: string): (r: string)
    ensures |r| >= |s|
    ensures forall k :: 0 <= k < |r| ==> IsInert(r[k])
  {
    if s == [] then [] else EscapeChar(s[0]) + EscapeHTML(s[1..])
  }

  /** The first alternative (in the written order) that `t` starts with. */
  function FirstToken(t: string, tokens: seq<string>): (r: Option<string>)
    ensures r.Some? ==> |r.value| > 0 && r.value <= t && r.value in tokens
  {
    if tokens == [] then None
    else if |tokens[0]| > 0 && tokens[0] <= t then Some(tokens[0])
    else FirstToken(t, tokens[1..])
  }

  /** `entityMap[s]`, which is `undefined` (rendered "undefined") for a string that is no key. */
  function Lookup(token: string): string
  {
    if token in UnescapeMap then UnescapeMap[token] else "undefined"
  }

  /** Replacing every match of the alternatives, scanning left to right. */
  function UnescapeWith(t: string, tokens: seq<string>): string
    decreases |t|
  {
    if t == [] then []
    else
      match FirstToken(t, tokens)
      case Some(e) => Lookup(e) + UnescapeWith(t[|e|..], tokens)
      case None => [t[0]] + UnescapeWith(t[1..], tokens)
  }

  /** `unescapeHTML` as written. */
  function UnescapeHTML(t: string): string
  {
    UnescapeWith(t, WrittenTokens)
  }

  /** `unescapeHTML` with the `=` alternative spelled as the map's key. */
  function UnescapeFixed(t: string): string
  {
    UnescapeWith(t, FixedTokens)
  }

  // ----- the two maps -----

  /** Unescaping a reference of a special character through the map gives that character back. */
  lemma EntityDecodes(c: char)
    requires IsSpecial(c)
    ensures Entity(c) in UnescapeMap && UnescapeMap[Entity(c)] == [c]
  {
    if c == '&' {} else if c == '<' {} else if c == '>' {} else if c == '"' {}
    else if c == '\'' {} else if c == '/' {} else if c == '`' {} else if c == '=' {}
    else if c == ':' {} else if c == '?' {} else {}
  }

  /** The escape map is injective. */
  lemma EntityInjective(a: char, b: char)
    requires IsSpecial(a) && IsSpecial(b) && Entity(a) == Entity(b)
    ensures a == b
  {
    EntityDecodes(a);
    EntityDecodes(b);
  }

  /** Two references that differ within their first five characters. */
  predicate EarlyDifference(a: string, b: string) {
    && |a| >= 4 && |b| >= 4
    && (a[1] != b[1] || a[2] != b[2] || a[3] != b[3] || (|a| >= 5 && |b| >= 5 && a[4] != b[4]))
  }

  lemma EarlyDifferenceNotPrefix(a: string, b: string)
    requires EarlyDifference(a, b)
    ensures !(a <= b) && !(b <= a)
  {
    assert a[1] != b[1] || a[2] != b[2] || a[3] != b[3] || (|a| >= 5 && |b| >= 5 && a[4] != b[4]);
  }

  /** The alternatives differ pairwise early on, and each starts with `&`. */
  lemma TokensDistinct()
    ensures forall j, k | 0 <= j < k < |WrittenTokens| :: EarlyDifference(WrittenTokens[j], WrittenTokens[k])
    ensures forall j, k | 0 <= j < k < |FixedTokens| :: EarlyDifference(FixedTokens[j], FixedTokens[k])
    ensures forall j | 0 <= j < |WrittenTokens| :: WrittenTokens[j] != [] && WrittenTokens[j][0] == '&'
    ensures forall j | 0 <= j < |FixedTokens| :: FixedTokens[j] != [] && FixedTokens[j][0] == '&'
  {
  }

  /** No reference of the map is a prefix of another: a left-to-right scan over them is unambiguous. */
  lemma FixedTokensPrefixFree()
    ensures forall j, k | 0 <= j < |FixedTokens| && 0 <= k < |FixedTokens| && j != k :: !(FixedTokens[j] <= FixedTokens[k])
  {
    TokensDistinct();
    forall j, k | 0 <= j < |FixedTokens| && 0 <= k < |FixedTokens| && j != k
      ensures !(FixedTokens[j] <= FixedTokens[k])
    {
      if j < k {
        EarlyDifferenceNotPrefix(FixedTokens[j], FixedTokens[k]);
      } else {
        EarlyDifferenceNotPrefix(FixedTokens[k], FixedTokens[j]);
      }
    }
  }

  // ----- the scanner on escaped text -----

  lemma NotPrefixOfExtension(a: string, e: string, x: string)
    requires !(a <= e) && !(e <= a)
    ensures !(a <= e + x)
  {
    if |a| <= |e| {
      assert (e + x)[..|a|] == e[..|a|];
    } else {
      assert (e + x)[..|e|] == e;
    }
  }

  lemma {:induction false} FirstTokenAt(t: string, tokens: seq<string>, i: nat)
    requires i < |tokens| && |tokens[i]| > 0 && tokens[i] <= t
    requires forall j :: 0 <= j < i ==> !(tokens[j] <= t)
    ensures FirstToken(t, tokens) == Some(tokens[i])
  {
    if i > 0 {
      FirstTokenAt(t, tokens[1..], i - 1);
    }
  }

  /** Where the reference of a special character sits among the alternatives. */
  function EntityIndex(c: char): (i: nat)
    requires IsSpecial(c)
    ensures i < |FixedTokens| && FixedTokens[i] == Entity(c)
    ensures c != '=' ==> WrittenTokens[i] == Entity(c)
    ensures c == '=' ==> i == 7
  {
    if c == '&' then 0
    else if c == '<' then 1
    else if c == '>' then 2
    else if c == '"' then 3
    else if c == '\'' then 4
    else if c == '/' then 5
    else if c == '`' then 6
    else if c == '=' then 7
    else if c == ':' then 8
    else if c == '?' then 9
    else 10
  }

  /** At a reference followed by anything, the scan picks the alternative at index `i`. */
  lemma {:induction false} FirstTokenOfEntity(c: char, x: string, tokens: seq<string>, i: nat)
    requires IsSpecial(c) && i < |tokens| && |tokens[i]| > 0 && tokens[i] <= Entity(c)
    requires forall j :: 0 <= j < i ==> EarlyDifference(tokens[j], Entity(c))
    ensures FirstToken(Entity(c) + x, tokens) == Some(tokens[i])
  {
    forall j | 0 <= j < i ensures !(tokens[j] <= Entity(c) + x) {
      EarlyDifferenceNotPrefix(tokens[j], Entity(c));
      NotPrefixOfExtension(tokens[j], Entity(c), x);
    }
    assert tokens[i] == Entity(c)[..|tokens[i]|] == (Entity(c) + x)[..|tokens[i]|];
    FirstTokenAt(Entity(c) + x, tokens, i);
  }

  /** Nothing matches at a character other than `&`. */
  lemma {:induction false} NoTokenAtPlainChar(c: char, x: string, tokens: seq<string>)
    requires c != '&'
    requires forall j | 0 <= j < |tokens| :: tokens[j] != [] && tokens[j][0] == '&'
    ensures FirstToken([c] + x, tokens) == None
  {
    if tokens != [] {
      assert tokens[0][0] != ([c] + x)[0];
      NoTokenAtPlainChar(c, x, tokens[1..]);
    }
  }

  /** At the escaped `=`, the written scan picks the alternative that lacks the `;`. */
  lemma EqualsTokenFound(x: string)
    ensures FirstToken("&#x3D;" + x, WrittenTokens) == Some("&#x3D")
  {
    assert forall j :: 0 <= j < 7 ==> EarlyDifference(WrittenTokens[j], "&#x3D;");
    FirstTokenOfEntity('=', x, WrittenTokens, 7);
  }

  /** The `;` left behind is copied as it is. */
  lemma SemicolonKept(x: string)
    ensures UnescapeHTML([';'] + x) == [';'] + UnescapeHTML(x)
  {
    TokensDistinct();
    NoTokenAtPlainChar(';', x, WrittenTokens);
    assert ([';'] + x)[1..] == x;
  }

  /** One step of the scan where an alternative matches within the reference `e`. */
  lemma ScanHit(e: string, x: string, tokens: seq<string>, tok: string, rest: string)
    requires |tok| <= |e| && FirstToken(e + x, tokens) == Some(tok) && e[|tok|..] == rest
    ensures UnescapeWith(e + x, tokens) == Lookup(tok) + UnescapeWith(rest + x, tokens)
  {
    assert (e + x)[|tok|..] == rest + x;
  }

  /** The `=` alternative as written is no key of the map. */
  lemma ShortEqualsUndefined()
    ensures Lookup("&#x3D") == "undefined"
  {
  }

  /** The escaped `=`, as the written unescaper reads it back. */
  lemma {:induction false} WrittenStepEquals(x: string)
    ensures UnescapeHTML(EscapeChar('=') + x) == "undefined;" + UnescapeHTML(x)
  {
    assert EscapeChar('=') == "&#x3D;";
    EqualsReadsUndefined(x);
    SemicolonKept(x);
    AppendAssoc("undefined", ";", UnescapeHTML(x));
    UndefinedSemicolon();
  }

  /** The written scan reads `&#x3D` as `undefined` and leaves the `;` for the next step. */
  lemma EqualsReadsUndefined(x: string)
    ensures UnescapeHTML("&#x3D;" + x) == "undefined" + UnescapeHTML(";" + x)
  {
    EqualsTokenFound(x);
    ScanHit("&#x3D;", x, WrittenTokens, "&#x3D", ";");
    ShortEqualsUndefined();
  }

  lemma UndefinedSemicolon()
    ensures "undefined" + ";" == "undefined;"
  {
  }

  /** A special character other than `=`, as the written unescaper reads it back. */
  lemma WrittenStepSpecial(c: char, x: string)
    requires IsSpecial(c) && c != '='
    ensures UnescapeHTML(EscapeChar(c) + x) == [c] + UnescapeHTML(x)
  {
    TokensDistinct();
    FirstTokenOfEntity(c, x, WrittenTokens, EntityIndex(c));
    EntityDecodes(c);
    ScanHit(Entity(c), x, WrittenTokens, Entity(c), []);
    assert [] + x == x;
  }

  /** A character escaping leaves alone, as the written unescaper reads it back. */
  lemma WrittenStepPlain(c: char, x: string)
    requires !IsSpecial(c)
    ensures UnescapeHTML(EscapeChar(c) + x) == [c] + UnescapeHTML(x)
  {
    TokensDistinct();
    NoTokenAtPlainChar(c, x, WrittenTokens);
    assert ([c] + x)[1..] == x;
  }

  lemma SpoiledOne(c: char)
    ensures EqualsSpoiled([c]) == if c == '=' then "undefined;" else [c]
  {
    assert EqualsSpoiled([c]) == (if c == '=' then "undefined;" else [c]) + EqualsSpoiled([]);
  }

  /** One escaped character, as the written unescaper reads it back. */
  lemma {:induction false} WrittenStep(c: char, x: string)
    ensures UnescapeHTML(EscapeChar(c) + x) == EqualsSpoiled([c]) + UnescapeHTML(x)
  {
    SpoiledOne(c);
    if c == '=' {
      WrittenStepEquals(x);
    } else if IsSpecial(c) {
      WrittenStepSpecial(c, x);
    } else {
      WrittenStepPlain(c, x);
    }
  }

  /** One escaped character, as the intended unescaper reads it back. */
  lemma {:induction false} FixedStep(c: char, x: string)
    ensures UnescapeFixed(EscapeChar(c) + x) == [c] + UnescapeFixed(x)
  {
    TokensDistinct();
    if IsSpecial(c) {
      var i := EntityIndex(c);
      FirstTokenOfEntity(c, x, FixedTokens, i);
      EntityDecodes(c);
      assert (Entity(c) + x)[|Entity(c)|..] == x;
    } else {
      NoTokenAtPlainChar(c, x, FixedTokens);
      assert ([c] + x)[1..] == x;
    }
  }

  /** The text the written round trip produces: each `=` comes back as "undefined;". */
  function EqualsSpoiled(s: string): string
  {
    if s == [] then [] else (if s[0] == '=' then "undefined;" else [s[0]]) + EqualsSpoiled(s[1..])
  }

  // ----- round trips -----

  /** With the intended alternatives, unescaping undoes escaping for every text. */
  lemma {:induction false} FixedRoundTrip(s: string)
    ensures UnescapeFixed(EscapeHTML(s)) == s
    decreases |s|
  {
    if s != [] {
      FixedStep(s[0], EscapeHTML(s[1..]));
      FixedRoundTrip(s[1..]);
    }
  }

  /** As written, the round trip turns each `=` into "undefined;" and keeps everything else. */
  lemma {:induction false} WrittenRoundTrip(s: string)
    ensures UnescapeHTML(EscapeHTML(s)) == EqualsSpoiled(s)
    decreases |s|
  {
    if s != [] {
      WrittenRoundTrip(s[1..]);
      WrittenRoundStep(s);
    }
  }

  lemma WrittenRoundStep(s: string)
    requires s != [] && UnescapeHTML(EscapeHTML(s[1..])) == EqualsSpoiled(s[1..])
    ensures UnescapeHTML(EscapeHTML(s)) == EqualsSpoiled(s)
  {
    WrittenStep(s[0], EscapeHTML(s[1..]));
    SpoiledOne(s[0]);
  }

  lemma {:induction false} EqualsSpoiledLength(s: string)
    ensures '=' !in s ==> EqualsSpoiled(s) == s
    ensures '=' in s ==> |EqualsSpoiled(s)| > |s|
    ensures |EqualsSpoiled(s)| >= |s|
    decreases |s|
  {
    if s != [] {
      EqualsSpoiledLength(s[1..]);
      assert s == [s[0]] + s[1..];
    }
  }

  /** As written, unescaping undoes escaping exactly for the texts without `=`. */
  lemma RoundTripIffNoEquals(s: string)
    ensures UnescapeHTML(EscapeHTML(s)) == s <==> '=' !in s
  {
    WrittenRoundTrip(s);
    EqualsSpoiledLength(s);
  }

  /** The smallest input that shows the defect. */
  lemma EqualsSignCounterexample()
    ensures EscapeHTML("=") == "&#x3D;"
    ensures UnescapeHTML(EscapeHTML("=")) == "undefined;"
  {
    WrittenRoundTrip("=");
    assert EqualsSpoiled("=") == "undefined;" + EqualsSpoiled([]);
  }

  /** Different texts escape to different texts. */
  lemma EscapeInjective(a: string, b: string)
    requires EscapeHTML(a) == EscapeHTML(b)
    ensures a == b
  {
    FixedRoundTrip(a);
    FixedRoundTrip(b);
  }

  /** Escaping distributes over concatenation: it works character by character. */
  lemma {:induction false} EscapeConcat(a: string, b: string)
    ensures EscapeHTML(a + b) == EscapeHTML(a) + EscapeHTML(b)
    decreases |a|
  {
    if a == [] {
      assert a + b == b;
    } else {
      assert (a + b)[0] == a[0] && (a + b)[1..] == a[1..] + b;
      EscapeConcat(a[1..], b);
      calc {
        EscapeHTML(a + b);
        EscapeChar(a[0]) + EscapeHTML(a[1..] + b);
        EscapeChar(a[0]) + (EscapeHTML(a[1..]) + EscapeHTML(b));
        (EscapeChar(a[0]) + EscapeHTML(a[1..])) + EscapeHTML(b);
      }
    }
  }

  /** Escaping changes a text exactly when it holds a special character. */
  lemma {:induction false} EscapeUnchangedIff(s: string)
    ensures EscapeHTML(s) == s <==> forall k :: 0 <= k < |s| ==> !IsSpecial(s[k])
    decreases |s|
  {
    if s != [] {
      EscapeUnchangedIff(s[1..]);
      if IsSpecial(s[0]) {
        assert |EscapeHTML(s)| > |s|;
      } else {
        assert s == [s[0]] + s[1..];
        assert forall k :: 1 <= k < |s| ==> s[k] == s[1..][k - 1];
      }
    }
  }
}
