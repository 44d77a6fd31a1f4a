/**
 * `escapeAndFormat` in `src/routes/functions.ts`: the text a user typed is
 * escaped, its links are wrapped in anchors, the white space that opens each
 * line is kept as non-breaking spaces, line breaks become `<br>`, and the
 * Markdown subset is converted.
 */
module Format {
  import opened Text
  import Escape
  import Linkify
  import Layout
  import Markdown

  /** The five stages, each applied to the result of the one before. */
  function Formatted(text: string): string
  {
    var linked := Linkify.EmailPass(Linkify.BarePass(Linkify.ProtocolPass(Escape.EscapeHTML(text))));
    Markdown.Converted(Layout.ConvertNewlines(Layout.PreserveLeadingSpaces(linked)))
  }

  /** `escapeAndFormat`. */
  method EscapeAndFormat(text: string) returns (r: string)
    ensures r == Formatted(text)
  {
    var escapedText := Escape.EscapeHTML(text);
    var linkifiedText := Linkify.Linkify(escapedText);
    var spacedText := Layout.PreserveLeadingSpaces(linkifiedText);
    var newLinesText := Layout.ConvertNewlines(spacedText);
    r := Markdown.ConvertMarkdown(newLinesText);
  }

  /** A character of ordinary prose that no stage rewrites. */
  predicate Prose(c: char)
  {
    IsLetter(c) || c == ' ' || c == ',' || c == '!'
  }

  /** Prose holds no character that escaping rewrites. */
  lemma ProseEscapes(text: string)
    requires forall k :: 0 <= k < |text| ==> Prose(text[k])
    ensures Escape.EscapeHTML(text) == text
  {
    assert forall k :: 0 <= k < |text| ==> !Escape.IsSpecial(text[k]);
    Escape.EscapeUnchangedIff(text);
  }

  /** Prose holds no `&`, `@` or `.`, so no link pass finds a match in it. */
  lemma ProseLinks(text: string)
    requires forall k :: 0 <= k < |text| ==> Prose(text[k])
    ensures Linkify.EmailPass(Linkify.BarePass(Linkify.ProtocolPass(text))) == text
  {
    assert '&' !in text && '@' !in text && '.' !in text by {
      forall k | 0 <= k < |text| ensures text[k] != '&' && text[k] != '@' && text[k] != '.' {
        assert Prose(text[k]);
      }
    }
    Linkify.LinkifyQuiet(text);
  }

  /** Prose holds no character that opens a Markdown rule. */
  lemma ProseConverts(text: string)
    requires forall k :: 0 <= k < |text| ==> Prose(text[k])
    ensures Markdown.Converted(text) == text
  {
    assert Markdown.Plain(text);
    Markdown.PlainUnchanged(text);
  }

  /** Prose holds nothing the escaping, the link passes or the Markdown rules react to. */
  lemma {:induction false} ProseIsInert(text: string)
    requires forall k :: 0 <= k < |text| ==> Prose(text[k])
    ensures Escape.EscapeHTML(text) == text
    ensures Linkify.EmailPass(Linkify.BarePass(Linkify.ProtocolPass(text))) == text
    ensures Markdown.Converted(text) == text
  {
    ProseEscapes(text);
    ProseLinks(text);
    ProseConverts(text);
  }

  /** A single line that does not open with white space passes the two layout stages unchanged. */
  lemma {:induction false} LineKeepsLayout(text: string)
    requires forall k :: 0 <= k < |text| ==> !IsLineTerminator(text[k])
    requires text == [] || !IsSpace(text[0])
    ensures Layout.ConvertNewlines(Layout.PreserveLeadingSpaces(text)) == text
  {
    Layout.PreserveIsLeading(text);
    Layout.LeadingKeepsLineBody(text);
    Layout.ConvertNewlinesJoinsLines(text);
    SplitJoin([text], '\n');
  }

  /** Prose is a single line that does not open with white space, unless it opens with a space. */
  lemma {:induction false} ProseIsOneLine(text: string)
    requires forall k :: 0 <= k < |text| ==> Prose(text[k])
    requires text == [] || text[0] != ' '
    ensures forall k :: 0 <= k < |text| ==> !IsLineTerminator(text[k])
    ensures text == [] || !IsSpace(text[0])
  {
  }

  /** A single line of letters, spaces, commas and exclamation marks that does not open with a space is shown exactly as typed. */
  lemma {:induction false} ProseUnchanged(text: string)
    requires forall k :: 0 <= k < |text| ==> Prose(text[k])
    requires text == [] || text[0] != ' '
    ensures Formatted(text) == text
  {
    ProseIsOneLine(text);
    LineKeepsLayout(text);
    ProseIsInert(text);
  }
}
