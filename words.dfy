/**
 * The small text helpers of `src/routes/functions.ts` that work on words:
 * `camelCaseToSpaced`, `capitalizeWords` and `shortenString`.
 */
module Words {
  import opened Text
  import opened Scan

  // ------------------------------------------------------------ camelCaseToSpaced

  /** `([a-z])([A-Z])`: a lower-case letter directly followed by an upper-case one. */
  function Hump(s: string, i: nat): Option<Match>
  {
    if i + 1 < |s| && IsLower(s[i]) && IsUpper(s[i + 1]) then
      Some(Match(2, [s[i..i + 1], s[i + 1..i + 2]]))
    else None
  }

  /** `([A-Z])([A-Z][a-z])`: the last capital of an acronym before a capitalised word. */
  function AcronymEnd(s: string, i: nat): Option<Match>
  {
    if i + 2 < |s| && IsUpper(s[i]) && IsUpper(s[i + 1]) && IsLower(s[i + 2]) then
      Some(Match(3, [s[i..i + 1], s[i + 1..i + 3]]))
    else None
  }

  /** The replacement `'$1 $2'`. */
  function SpaceBetween(m: string, groups: seq<string>): string
  {
    if |groups| == 2 then groups[0] + " " + groups[1] else m
  }

  /**
   * `.replace(/^./, str => str.toUpperCase())`: no `g` and no `m` flag, so only
   * the first character, and only when it is not a line terminator.
   */
  function UpperFirst(s: string): string
  {
    if s != [] && !IsLineTerminator(s[0]) then [ToUpper(s[0])] + s[1..] else s
  }

  /** `camelCaseToSpaced`: the three replacements, in order. */
  function CamelCaseToSpaced(camel: string): string
  {
    UpperFirst(ReplaceAll(ReplaceAll(camel, Hump, SpaceBetween), AcronymEnd, SpaceBetween))
  }

  /** No lower-case letter is directly followed by an upper-case letter. */
  predicate NoHump(s: string)
  {
    forall k :: 0 <= k < |s| - 1 ==> !(IsLower(s[k]) && IsUpper(s[k + 1]))
  }

  lemma NoHumpConcat(a: string, b: string)
    requires NoHump(a) && NoHump(b)
    requires a != [] && b != [] ==> !(IsLower(a[|a| - 1]) && IsUpper(b[0]))
    ensures NoHump(a + b)
  {
    var s := a + b;
    forall k | 0 <= k < |s| - 1 ensures !(IsLower(s[k]) && IsUpper(s[k + 1])) {
      if k + 1 < |a| {
        assert s[k] == a[k] && s[k + 1] == a[k + 1];
      } else if k + 1 == |a| {
        assert s[k] == a[|a| - 1] && s[k + 1] == b[0];
      } else {
        assert s[k] == b[k - |a|] && s[k + 1] == b[k - |a| + 1];
      }
    }
  }

  /** The first pass leaves no hump, and its output starts with the character it started from. */
  lemma {:induction false} HumpsSplit(s: string, i: nat)
    requires i <= |s|
    ensures NoHump(ReplaceFrom(s, i, Hump, SpaceBetween))
    ensures i < |s| ==> ReplaceFrom(s, i, Hump, SpaceBetween) != [] && ReplaceFrom(s, i, Hump, SpaceBetween)[0] == s[i]
    decreases |s| - i
  {
    if i < |s| {
      var r := ReplaceFrom(s, i, Hump, SpaceBetween);
      if Hit(s, i, Hump(s, i)) {
        HumpsSplit(s, i + 2);
        var rest := ReplaceFrom(s, i + 2, Hump, SpaceBetween);
        var w := s[i..i + 1] + " " + s[i + 1..i + 2];
        assert r == w + rest;
        assert w == [s[i], ' ', s[i + 1]];
        NoHumpConcat(w, rest);
      } else {
        HumpsSplit(s, i + 1);
        var rest := ReplaceFrom(s, i + 1, Hump, SpaceBetween);
        assert r == [s[i]] + rest;
        NoHumpConcat([s[i]], rest);
      }
    }
  }

  /** The second pass keeps a text free of humps, and its output starts with the character it started from. */
  lemma {:induction false} AcronymsKeep(s: string, i: nat)
    requires i <= |s| && NoHump(s)
    ensures NoHump(ReplaceFrom(s, i, AcronymEnd, SpaceBetween))
    ensures i < |s| ==> ReplaceFrom(s, i, AcronymEnd, SpaceBetween) != [] && ReplaceFrom(s, i, AcronymEnd, SpaceBetween)[0] == s[i]
    decreases |s| - i
  {
    if i < |s| {
      var r := ReplaceFrom(s, i, AcronymEnd, SpaceBetween);
      if Hit(s, i, AcronymEnd(s, i)) {
        AcronymsKeep(s, i + 3);
        var rest := ReplaceFrom(s, i + 3, AcronymEnd, SpaceBetween);
        var w := s[i..i + 1] + " " + s[i + 1..i + 3];
        assert r == w + rest;
        assert w == [s[i], ' ', s[i + 1], s[i + 2]];
        NoHumpConcat(w, rest);
      } else {
        AcronymsKeep(s, i + 1);
        var rest := ReplaceFrom(s, i + 1, AcronymEnd, SpaceBetween);
        assert r == [s[i]] + rest;
        NoHumpConcat([s[i]], rest);
      }
    }
  }

  lemma UpperFirstKeeps(s: string)
    requires NoHump(s)
    ensures NoHump(UpperFirst(s))
  {
    if s != [] && !IsLineTerminator(s[0]) {
      NoHumpConcat([ToUpper(s[0])], s[1..]);
      assert NoHump(s[1..]) by {
        forall k | 0 <= k < |s| - 2 ensures !(IsLower(s[1..][k]) && IsUpper(s[1..][k + 1])) {
          assert s[1..][k] == s[k + 1] && s[1..][k + 1] == s[k + 2];
        }
      }
    }
  }

  /** A spaced-out name has no lower-case letter left directly against an upper-case one. */
  lemma CamelHasNoHump(camel: string)
    ensures NoHump(CamelCaseToSpaced(camel))
  {
    var t1 := ReplaceAll(camel, Hump, SpaceBetween);
    HumpsSplit(camel, 0);
    AcronymsKeep(t1, 0);
    UpperFirstKeeps(ReplaceAll(t1, AcronymEnd, SpaceBetween));
  }

  /** The text without its spaces. */
  function Unspaced(s: string): (r: string)
    ensures ' ' !in r
  {
    if s == [] then [] else (if s[0] == ' ' then [] else [s[0]]) + Unspaced(s[1..])
  }

  lemma {:induction false} UnspacedConcat(a: string, b: string)
    ensures Unspaced(a + b) == Unspaced(a) + Unspaced(b)
  {
    if a != [] {
      assert (a + b)[0] == a[0] && (a + b)[1..] == a[1..] + b;
      UnspacedConcat(a[1..], b);
    } else {
      assert a + b == b;
    }
  }

  /** A match at `j`, if any, is replaced by something that differs from it only in spaces. */
  predicate SpacesOnlyAt(s: string, j: nat, find: Finder, render: Render)
  {
    j < |s| && Hit(s, j, find(s, j)) ==>
      Unspaced(render(s[j..j + find(s, j).value.len], find(s, j).value.groups)) == Unspaced(s[j..j + find(s, j).value.len])
  }

  /** A pass whose replacements differ from their matches only in spaces changes the text only in spaces. */
  lemma {:induction false} OnlySpaces(s: string, i: nat, find: Finder, render: Render)
    requires i <= |s|
    requires forall j :: i <= j < |s| ==> SpacesOnlyAt(s, j, find, render)
    ensures Unspaced(ReplaceFrom(s, i, find, render)) == Unspaced(s[i..])
    decreases |s| - i
  {
    if i < |s| {
      var m := find(s, i);
      var e := if Hit(s, i, m) then i + m.value.len else i + 1;
      var w := if Hit(s, i, m) then render(s[i..e], m.value.groups) else [s[i]];
      assert ReplaceFrom(s, i, find, render) == w + ReplaceFrom(s, e, find, render);
      assert Unspaced(w) == Unspaced(s[i..e]) by {
        if Hit(s, i, m) {
          assert SpacesOnlyAt(s, i, find, render);
        } else {
          assert w == s[i..e];
        }
      }
      OnlySpaces(s, e, find, render);
      UnspacedJoin(s, i, e, w, ReplaceFrom(s, e, find, render));
    }
  }

  lemma UnspacedJoin(s: string, i: nat, e: nat, w: string, rest: string)
    requires i <= e <= |s|
    requires Unspaced(w) == Unspaced(s[i..e]) && Unspaced(rest) == Unspaced(s[e..])
    ensures Unspaced(w + rest) == Unspaced(s[i..])
  {
    SliceSplit(s, i, e);
    UnspacedConcat(w, rest);
    UnspacedConcat(s[i..e], s[e..]);
  }

  lemma SpaceBetweenUnspaced(g0: string, g1: string)
    ensures Unspaced(SpaceBetween(g0 + g1, [g0, g1])) == Unspaced(g0 + g1)
  {
    UnspacedConcat(g0 + " ", g1);
    UnspacedConcat(g0, " ");
    UnspacedConcat(g0, g1);
  }

  lemma HumpOnlySpaces(s: string)
    ensures forall j :: 0 <= j < |s| ==> SpacesOnlyAt(s, j, Hump, SpaceBetween)
  {
    forall j | 0 <= j < |s| && Hit(s, j, Hump(s, j))
      ensures Unspaced(SpaceBetween(s[j..j + 2], Hump(s, j).value.groups)) == Unspaced(s[j..j + 2])
    {
      assert s[j..j + 2] == s[j..j + 1] + s[j + 1..j + 2];
      SpaceBetweenUnspaced(s[j..j + 1], s[j + 1..j + 2]);
    }
  }

  lemma AcronymOnlySpaces(s: string)
    ensures forall j :: 0 <= j < |s| ==> SpacesOnlyAt(s, j, AcronymEnd, SpaceBetween)
  {
    forall j | 0 <= j < |s| && Hit(s, j, AcronymEnd(s, j))
      ensures Unspaced(SpaceBetween(s[j..j + 3], AcronymEnd(s, j).value.groups)) == Unspaced(s[j..j + 3])
    {
      assert s[j..j + 3] == s[j..j + 1] + s[j + 1..j + 3];
      SpaceBetweenUnspaced(s[j..j + 1], s[j + 1..j + 3]);
    }
  }

  /**
   * `camelCaseToSpaced` only inserts spaces and capitalises the first character:
   * taking the spaces out gives the same as taking them out of the capitalised input.
   */
  lemma CamelOnlyInsertsSpaces(camel: string)
    ensures Unspaced(CamelCaseToSpaced(camel)) == Unspaced(UpperFirst(camel))
  {
    var t1 := ReplaceAll(camel, Hump, SpaceBetween);
    var t2 := ReplaceAll(t1, AcronymEnd, SpaceBetween);
    HumpOnlySpaces(camel);
    OnlySpaces(camel, 0, Hump, SpaceBetween);
    AcronymOnlySpaces(t1);
    OnlySpaces(t1, 0, AcronymEnd, SpaceBetween);
    assert camel[0..] == camel && t1[0..] == t1;
    HumpsSplit(camel, 0);
    AcronymsKeep(t1, 0) by { HumpsSplit(camel, 0); }
    if camel != [] {
      assert t2 != [] && t2[0] == camel[0];
      assert t2 == [t2[0]] + t2[1..] && camel == [camel[0]] + camel[1..];
      UnspacedConcat([t2[0]], t2[1..]);
      UnspacedConcat([camel[0]], camel[1..]);
      var x := Unspaced([camel[0]]);
      assert x + Unspaced(t2[1..]) == x + Unspaced(camel[1..]);
      assert (x + Unspaced(t2[1..]))[|x|..] == Unspaced(t2[1..]);
      assert (x + Unspaced(camel[1..]))[|x|..] == Unspaced(camel[1..]);
      var c := if IsLineTerminator(camel[0]) then camel[0] else ToUpper(camel[0]);
      assert UpperFirst(t2) == [c] + t2[1..] && UpperFirst(camel) == [c] + camel[1..];
      UnspacedConcat([c], t2[1..]);
      UnspacedConcat([c], camel[1..]);
    } else {
      assert t1 == [] && t2 == [];
    }
  }

  /** A name with no hump, no acronym before a word and no lower-case first letter comes back unchanged. */
  lemma CamelUnchanged(camel: string)
    requires NoHump(camel)
    requires forall j :: 0 <= j < |camel| - 2 ==> !(IsUpper(camel[j]) && IsUpper(camel[j + 1]) && IsLower(camel[j + 2]))
    requires camel == [] || !IsLower(camel[0])
    ensures CamelCaseToSpaced(camel) == camel
  {
    ReplaceNoHit(camel, 0, Hump, SpaceBetween);
    ReplaceNoHit(camel, 0, AcronymEnd, SpaceBetween);
    assert camel[0..] == camel;
  }

  /** Where the hump patterns match in `firstName`. */
  lemma FirstNameScan(a: string)
    requires a == "firstName"
    ensures forall j :: 0 <= j < 4 ==> !Hit(a, j, Hump(a, j))
    ensures forall j :: 6 <= j < |a| ==> !Hit(a, j, Hump(a, j))
    ensures Hump(a, 4) == Some(Match(2, ["t", "N"]))
    ensures SpaceBetween(a[4..6], ["t", "N"]) == "t N"
  {
    assert a[4..5] == "t" && a[5..6] == "N";
  }

  lemma FirstNameSpelled(a: string)
    requires a == "firstName"
    ensures a[0..4] + ("t N" + a[6..]) == "first Name"
  {
    var w := "first Name";
    SliceThree(w, 4, 7);
    assert w[..4] == a[0..4] && w[4..7] == "t N" && w[7..] == a[6..];
  }

  /** The one hump of `firstName` is split. */
  lemma FirstNameHumps(a: string)
    requires a == "firstName"
    ensures ReplaceAll(a, Hump, SpaceBetween) == "first Name"
  {
    FirstNameScan(a);
    ReplaceCopies(a, 0, 4, Hump, SpaceBetween);
    ReplaceHitAs(a, 4, Hump, SpaceBetween, 2, ["t", "N"], "t N");
    ReplaceNoHit(a, 6, Hump, SpaceBetween);
    FirstNameSpelled(a);
  }

  /** `first Name` holds no acronym, and its first letter is lower case. */
  lemma FirstNameCapital(a: string)
    requires a == "first Name"
    ensures ReplaceAll(a, AcronymEnd, SpaceBetween) == a
    ensures UpperFirst(a) == "First Name"
  {
    ReplaceNoHit(a, 0, AcronymEnd, SpaceBetween);
    assert a[0..] == a;
    var w := "First Name";
    SliceSplit(w, 0, 1);
    assert w[0..] == w && w[0..1] == [ToUpper(a[0])] && w[1..] == a[1..];
  }

  /** A camel-case name is split before each capital. */
  lemma CamelExample(v: string)
    requires v == "firstName"
    ensures CamelCaseToSpaced(v) == "First Name"
  {
    FirstNameHumps(v);
    FirstNameCapital(ReplaceAll(v, Hump, SpaceBetween));
  }

  /** Where the patterns match in `CVFile`. */
  lemma AcronymScan(v: string)
    requires v == "CVFile"
    ensures forall j :: 0 <= j < |v| ==> !Hit(v, j, Hump(v, j))
    ensures !Hit(v, 0, AcronymEnd(v, 0))
    ensures AcronymEnd(v, 1) == Some(Match(3, ["V", "Fi"]))
    ensures SpaceBetween(v[1..4], ["V", "Fi"]) == "V Fi"
    ensures forall j :: 4 <= j < |v| ==> !Hit(v, j, AcronymEnd(v, j))
  {
    assert v[1..2] == "V" && v[2..4] == "Fi";
  }

  lemma AcronymSpelled(v: string)
    requires v == "CVFile"
    ensures UpperFirst([v[0]] + ("V Fi" + v[4..])) == "CV File"
  {
    var w := "CV File";
    SliceThree(w, 1, 5);
    assert w[..1] == [v[0]] && w[1..5] == "V Fi" && w[5..] == v[4..];
    assert ToUpper(w[0]) == w[0];
  }

  /** An acronym keeps its capitals together and is split from the capitalised word after it. */
  lemma AcronymExample(v: string)
    requires v == "CVFile"
    ensures CamelCaseToSpaced(v) == "CV File"
  {
    AcronymScan(v);
    ReplaceNoHit(v, 0, Hump, SpaceBetween);
    assert v[0..] == v;
    ReplaceMiss(v, 0, AcronymEnd, SpaceBetween);
    ReplaceHitAs(v, 1, AcronymEnd, SpaceBetween, 3, ["V", "Fi"], "V Fi");
    ReplaceNoHit(v, 4, AcronymEnd, SpaceBetween);
    AcronymSpelled(v);
  }

  // ------------------------------------------------------------ capitalizeWords

  /** `word.charAt(0).toUpperCase() + word.slice(1)`. */
  function CapWord(w: string): string
  {
    if w == [] then [] else [ToUpper(w[0])] + w[1..]
  }

  /** `.map(...)` of `CapWord` over the words. */
  function CapWords(ws: seq<string>): (r: seq<string>)
    ensures |r| == |ws|
  {
    if ws == [] then [] else [CapWord(ws[0])] + CapWords(ws[1..])
  }

  /** `capitalizeWords`: split on single spaces, capitalise every word, join with single spaces. */
  function CapitalizeWords(str: string): string
  {
    Join(CapWords(Split(str, ' ')), " ")
  }

  /** Reference reading, one character at a time: `start` says that a word starts here. */
  function CapFrom(s: string, start: bool): (r: string)
    ensures |r| == |s|
  {
    if s == [] then [] else [if start then ToUpper(s[0]) else s[0]] + CapFrom(s[1..], s[0] == ' ')
  }

  /** The words with the first one capitalised only when `b` holds. */
  function CapFirst(ps: seq<string>, b: bool): seq<string>
    requires ps != []
  {
    [if b then CapWord(ps[0]) else ps[0]] + CapWords(ps[1..])
  }

  lemma {:induction false} CapMatches(s: string, b: bool)
    ensures Join(CapFirst(Split(s, ' '), b), " ") == CapFrom(s, b)
    decreases |s|
  {
    if s != [] {
      CapMatches(s[1..], s[0] == ' ');
      if s[0] == ' ' {
        CapSpaceStep(s, b);
      } else {
        CapLetterStep(s, b);
      }
    }
  }

  /** A space closes the current word; the next one starts capitalised. */
  lemma CapSpaceStep(s: string, b: bool)
    requires s != [] && s[0] == ' '
    requires Join(CapFirst(Split(s[1..], ' '), true), " ") == CapFrom(s[1..], true)
    ensures Join(CapFirst(Split(s, ' '), b), " ") == CapFrom(s, b)
  {
    var rest := Split(s[1..], ' ');
    assert Split(s, ' ') == [[]] + rest;
    CapEmptyHead(rest, b);
    JoinEmptyHead(CapFirst(rest, true), " ");
    assert ToUpper(' ') == ' ';
    assert CapFrom(s, b) == [' '] + CapFrom(s[1..], true);
  }

  /** An empty first word stays empty, and the word after it is capitalised. */
  lemma CapEmptyHead(rest: seq<string>, b: bool)
    requires rest != []
    ensures CapFirst([[]] + rest, b) == [[]] + CapFirst(rest, true)
  {
    assert ([[]] + rest)[1..] == rest;
    assert CapWords(rest) == CapFirst(rest, true);
  }

  /** Any other character extends the current word, capitalised only when it opens the word. */
  lemma CapLetterStep(s: string, b: bool)
    requires s != [] && s[0] != ' '
    requires Join(CapFirst(Split(s[1..], ' '), false), " ") == CapFrom(s[1..], false)
    ensures Join(CapFirst(Split(s, ' '), b), " ") == CapFrom(s, b)
  {
    var rest := Split(s[1..], ' ');
    var c := if b then ToUpper(s[0]) else s[0];
    assert Split(s, ' ') == [[s[0]] + rest[0]] + rest[1..];
    assert ([s[0]] + rest[0])[1..] == rest[0];
    var ps := CapFirst(Split(s, ' '), b);
    assert ps == [[c] + rest[0]] + CapWords(rest[1..]);
    JoinCons(c, rest[0], CapWords(rest[1..]), " ");
    assert CapFirst(rest, false) == [rest[0]] + CapWords(rest[1..]);
  }

  /** `capitalizeWords` agrees with the character-by-character reading. */
  lemma CapitalizeMatchesReference(str: string)
    ensures CapitalizeWords(str) == CapFrom(str, true)
  {
    CapMatches(str, true);
    assert CapFirst(Split(str, ' '), true) == CapWords(Split(str, ' '));
  }

  /** The start of a word: the start of the text, or right after a space. */
  predicate WordStart(s: string, k: nat)
  {
    k == 0 || (k <= |s| && s[k - 1] == ' ')
  }

  lemma {:induction false} CapFromAt(s: string, b: bool)
    ensures forall k :: 0 <= k < |s| ==>
              CapFrom(s, b)[k] == if (k == 0 && b) || (k > 0 && s[k - 1] == ' ') then ToUpper(s[k]) else s[k]
    decreases |s|
  {
    if s != [] {
      CapFromAt(s[1..], s[0] == ' ');
      var r := CapFrom(s, b);
      forall k | 0 < k < |s|
        ensures r[k] == if s[k - 1] == ' ' then ToUpper(s[k]) else s[k]
      {
        assert r[k] == CapFrom(s[1..], s[0] == ' ')[k - 1];
        assert s[1..][k - 1] == s[k];
        if k > 1 { assert s[1..][k - 2] == s[k - 1]; }
      }
    }
  }

  /**
   * `capitalizeWords` keeps the length, upper-cases the character at the start of
   * every space-separated word and leaves every other character alone.
   */
  lemma CapitalizeWordsSpec(str: string)
    ensures |CapitalizeWords(str)| == |str|
    ensures forall k :: 0 <= k < |str| ==>
              CapitalizeWords(str)[k] == if WordStart(str, k) then ToUpper(str[k]) else str[k]
  {
    CapitalizeMatchesReference(str);
    CapFromAt(str, true);
  }

  /** Capitalising twice is capitalising once. */
  lemma CapitalizeIdempotent(str: string)
    ensures CapitalizeWords(CapitalizeWords(str)) == CapitalizeWords(str)
  {
    var r := CapitalizeWords(str);
    CapitalizeWordsSpec(str);
    CapitalizeWordsSpec(r);
    forall k | 0 <= k < |r| ensures CapitalizeWords(r)[k] == r[k] {
      if k > 0 {
        assert r[k - 1] == ' ' <==> str[k - 1] == ' ';
      }
    }
  }

  // ------------------------------------------------------------ shortenString

  /** `(<([^>]+)>)`: `<`, at least one character other than `>`, then `>`. */
  function Tag(s: string, i: nat): Option<Match>
  {
    if i < |s| && s[i] == '<' then
      var n := RunLength(s, i + 1, NotGt);
      if n >= 1 && i + 1 + n < |s| then Some(Match(n + 2, [s[i..i + n + 2], s[i + 1..i + 1 + n]])) else None
    else None
  }

  /** The replacement `' '`. */
  function Blank(m: string, groups: seq<string>): string
  {
    " "
  }

  /** `text.replace(/(<([^>]+)>)/gi, ' ')`. */
  function StripTags(text: string): string
  {
    ReplaceAll(text, Tag, Blank)
  }

  /** How many words `shortenString` keeps. */
  const MaxWords := 30

  /** `shortenString`: the first thirty space-separated words of the text without tags, and `...` when some were cut. */
  function ShortenString(text: string): string
  {
    var words := Split(StripTags(text), ' ');
    var kept := if |words| > MaxWords then words[..MaxWords] else words;
    if |words| > |kept| then Join(kept, " ") + "..." else Join(kept, " ")
  }

  /** No tag starts at `j`. */
  predicate TagFree(s: string, j: nat)
  {
    Tag(s, j).None?
  }

  /** No tag is left. */
  predicate NoTag(s: string)
  {
    forall j :: 0 <= j < |s| ==> TagFree(s, j)
  }

  lemma TagShift(a: string, b: string, j: nat)
    requires j < |b|
    ensures Tag(a + b, |a| + j) == Tag(b, j)
  {
    RunLengthShift(a, b, j + 1, NotGt);
    assert (a + b)[|a| + j] == b[j];
    var n := RunLength(b, j + 1, NotGt);
    if n >= 1 && j + 1 + n < |b| {
      assert (a + b)[|a| + j..|a| + j + n + 2] == b[j..j + n + 2];
      assert (a + b)[|a| + j + 1..|a| + j + 1 + n] == b[j + 1..j + 1 + n];
    }
  }

  lemma {:induction false} RunToEnd(x: string, j: nat)
    requires j <= |x| && '>' !in x
    ensures RunLength(x, j, NotGt) == |x| - j
    decreases |x| - j
  {
    if j < |x| {
      RunToEnd(x, j + 1);
    }
  }

  /** A character put in front of a text without tags makes no tag unless it opens one. */
  lemma NoTagCons(c: char, r: string)
    requires NoTag(r) && Tag([c] + r, 0).None?
    ensures NoTag([c] + r)
  {
    forall j | 0 < j < |[c] + r| ensures TagFree([c] + r, j) {
      TagShift([c], r, j - 1);
      assert TagFree(r, j - 1);
    }
  }

  /** What stripping from index `i` leaves: no tag; no `>` unless the rest had one; a leading `>` kept. */
  lemma StripFrom(s: string, i: nat)
    requires i <= |s|
    ensures NoTag(ReplaceFrom(s, i, Tag, Blank))
    ensures (forall k :: i <= k < |s| ==> s[k] != '>') ==> '>' !in ReplaceFrom(s, i, Tag, Blank)
    ensures i < |s| && s[i] == '>' ==> ReplaceFrom(s, i, Tag, Blank) != [] && ReplaceFrom(s, i, Tag, Blank)[0] == '>'
  {
    StripNoTag(s, i);
    StripNoGt(s, i);
    if i < |s| && s[i] == '>' {
      StripLeadingGt(s, i);
    }
  }

  /** A `>` opens no tag, so it is copied to the front. */
  lemma StripLeadingGt(s: string, i: nat)
    requires i < |s| && s[i] == '>'
    ensures ReplaceFrom(s, i, Tag, Blank) != [] && ReplaceFrom(s, i, Tag, Blank)[0] == '>'
  {
    ReplaceMiss(s, i, Tag, Blank);
  }

  /** Stripping writes no `>` of its own. */
  lemma {:induction false} StripNoGt(s: string, i: nat)
    requires i <= |s|
    ensures (forall k :: i <= k < |s| ==> s[k] != '>') ==> '>' !in ReplaceFrom(s, i, Tag, Blank)
    decreases |s| - i
  {
    if i < |s| {
      if Hit(s, i, Tag(s, i)) {
        // the tag's closing `>` is in the input
        TagEnds(s, i);
      } else {
        StripNoGt(s, i + 1);
        ReplaceMiss(s, i, Tag, Blank);
      }
    }
  }

  lemma {:induction false} StripNoTag(s: string, i: nat)
    requires i <= |s|
    ensures NoTag(ReplaceFrom(s, i, Tag, Blank))
    decreases |s| - i
  {
    if i < |s| {
      if Hit(s, i, Tag(s, i)) {
        StripNoTag(s, i + Tag(s, i).value.len);
        StripHitNoTag(s, i);
      } else {
        StripNoTag(s, i + 1);
        StripMissNoTag(s, i);
      }
    }
  }

  /** A tag becomes one space. */
  lemma BlankHit(s: string, i: nat)
    requires i < |s| && Hit(s, i, Tag(s, i))
    ensures ReplaceFrom(s, i, Tag, Blank) == " " + ReplaceFrom(s, i + Tag(s, i).value.len, Tag, Blank)
  {
    var m := Tag(s, i).value;
    ReplaceHitAs(s, i, Tag, Blank, m.len, m.groups, " ");
  }

  /** A tag becomes one space, which opens no tag. */
  lemma StripHitNoTag(s: string, i: nat)
    requires i < |s| && Hit(s, i, Tag(s, i))
    requires NoTag(ReplaceFrom(s, i + Tag(s, i).value.len, Tag, Blank))
    ensures NoTag(ReplaceFrom(s, i, Tag, Blank))
  {
    BlankHit(s, i);
    BlankNoTag(ReplaceFrom(s, i + Tag(s, i).value.len, Tag, Blank));
  }

  /** The space a tag becomes opens no tag. */
  lemma BlankNoTag(r: string)
    requires NoTag(r)
    ensures NoTag(" " + r)
  {
    assert " " + r == [' '] + r;
    NoTagCons(' ', r);
  }

  /** A tag opens with `<` and closes with `>`. */
  lemma TagEnds(s: string, i: nat)
    requires Hit(s, i, Tag(s, i))
    ensures i + Tag(s, i).value.len - 1 < |s| && s[i + Tag(s, i).value.len - 1] == '>'
  {
    var n := RunLength(s, i + 1, NotGt);
    assert Tag(s, i).value.len == n + 2;
    assert !NotGt(s[i + 1 + n]);
  }

  /**
   * A character that opens no tag is copied, and opens none in the result either:
   * a `<` there is followed by the `>` kept at the front of the rest, or by a rest
   * without any `>`.
   */
  lemma StripMissNoTag(s: string, i: nat)
    requires i < |s| && !Hit(s, i, Tag(s, i))
    requires NoTag(ReplaceFrom(s, i + 1, Tag, Blank))
    ensures NoTag(ReplaceFrom(s, i, Tag, Blank))
  {
    ReplaceMiss(s, i, Tag, Blank);
    StripMissHead(s, i);
    NoTagCons(s[i], ReplaceFrom(s, i + 1, Tag, Blank));
  }

  /** A character where no tag starts does not start one after stripping either. */
  lemma StripMissHead(s: string, i: nat)
    requires i < |s| && !Hit(s, i, Tag(s, i))
    ensures Tag([s[i]] + ReplaceFrom(s, i + 1, Tag, Blank), 0).None?
  {
    var r := [s[i]] + ReplaceFrom(s, i + 1, Tag, Blank);
    if s[i] == '<' {
      var n := RunLength(s, i + 1, NotGt);
      if n == 0 && i + 1 < |s| {
        StripLeadingGt(s, i + 1);
        assert r[1] == '>';
      } else if n >= 1 {
        assert i + 1 + n == |s|;
        StripNoGt(s, i + 1);
        RunToEnd(r, 1);
      }
    }
  }

  /** Every tag is gone from the stripped text. */
  lemma StripTagsRemovesTags(text: string)
    ensures NoTag(StripTags(text))
  {
    StripFrom(text, 0);
  }

  /** A text without `<` has nothing to strip. */
  lemma StripTagsUnchanged(text: string)
    requires '<' !in text
    ensures StripTags(text) == text
  {
    ReplaceNoHit(text, 0, Tag, Blank);
    assert text[0..] == text;
  }

  /** With thirty words or fewer, nothing is cut: the result is the text without its tags. */
  lemma ShortenShortText(text: string)
    requires |Split(StripTags(text), ' ')| <= MaxWords
    ensures ShortenString(text) == StripTags(text)
  {
    JoinSplit(StripTags(text), ' ');
  }

  /**
   * With more than thirty words, the result is the part of the tag-free text that
   * holds exactly its first thirty words, followed by `...`.
   */
  lemma ShortenLongText(text: string)
    requires |Split(StripTags(text), ' ')| > MaxWords
    ensures exists p :: 0 <= p <= |StripTags(text)| &&
              ShortenString(text) == StripTags(text)[..p] + "..." &&
              Split(StripTags(text)[..p], ' ') == Split(StripTags(text), ' ')[..MaxWords]
  {
    var c := StripTags(text);
    var words := Split(c, ' ');
    var kept := words[..MaxWords];
    JoinSplit(c, ' ');
    JoinCut(words, MaxWords, " ");
    var p := |Join(kept, " ")|;
    assert c[..p] == Join(kept, " ");
    SplitJoin(kept, ' ');
    assert ShortenString(text) == c[..p] + "...";
  }

  /** Whatever the text, at most thirty words survive before the `...`. */
  lemma ShortenWordCount(text: string)
    ensures var r := ShortenString(text);
            exists p :: 0 <= p <= |r| && |Split(r[..p], ' ')| <= MaxWords && (r[..p] == r || r == r[..p] + "...")
  {
    var c := StripTags(text);
    var r := ShortenString(text);
    if |Split(c, ' ')| <= MaxWords {
      ShortenShortText(text);
      assert r[..|r|] == r;
    } else {
      ShortenLongText(text);
      var p :| 0 <= p <= |c| && r == c[..p] + "..." && Split(c[..p], ' ') == Split(c, ' ')[..MaxWords];
      assert r[..p] == c[..p];
    }
  }
}
