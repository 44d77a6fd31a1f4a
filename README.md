# Text formatting and intake rules of the EB2 evaluation site

This project models the text-processing core of the evaluation site: the
helpers in `src/routes/functions.ts` that make user-typed text safe and
readable as HTML, and the rules in `src/routes/+page.server.ts` that check the
intake form, rename the uploaded CV and render the assistant's evaluation for
the e-mail.

- **Escaping** (`Escape`): `escapeHTML` maps eleven characters to their HTML
  character references. `unescapeHTML` scans for the references of one regular
  expression. Both the unescaper as written and the evidently intended one are
  modelled.
- **Links** (`Linkify`): the three `replace` passes of `linkify`. They wrap
  protocol URLs, bare domains and e-mail addresses in anchors. A text that
  already holds an anchor is left alone where the source leaves it alone.
- **Layout** (`Layout`): `preserveLeadingSpaces` turns the white space that
  opens each line into `&nbsp;`. `convertNewlines` turns each line feed into
  `<br>`.
- **Markdown** (`Markdown`, `Placeholder`, `LineRules`): `convertMarkdown`. Code blocks and
  link texts are parked in two queues behind placeholder words. Then the style,
  list and heading rules run and adjacent lists are merged. Last, the parked
  texts are put back in first-in, first-out order. `LineRules` states what the
  bullet, numbered and heading rules do to whole runs of lines.
- **The pipeline** (`Format`): `escapeAndFormat`, the five stages in order.
- **Word helpers** (`Words`): `camelCaseToSpaced`, `capitalizeWords` and
  `shortenString`.
- **Phone numbers** (`Phone`): the digit-layout part of `phoneFormat`.
- **Intake** (`Intake`, in `+page.server.ts`): the new CV file name, the rule
  that refuses a request with neither a CV nor complete fields, and the
  fields block of the e-mail.
- **Evaluation** (`Evaluation`, in `+page.server.ts`): `formatAIEvaluation`,
  which turns bold markers, `###` subtitles, blank lines and numbered items
  into HTML.

Every JavaScript `replace`/`split` with a global regular expression goes
through the same scanner (`Scan`). A pattern is a *finder*: it says whether
the pattern matches at a given index, and with what length and groups. The
scanner tries the indices left to right, renders each match and resumes after
it, as `String.prototype.replace` does. Strings are modelled as `seq<char>`, one
element per Unicode scalar value (JavaScript counts UTF-16 code units; see
"Left out"). The JavaScript `\s` class is `Text.IsSpace`.

The model is split into thirteen modules, one per file:

- `text.dfy`, `scan.dfy` and `placeholder.dfy` hold the shared helpers;
- `escape.dfy`, `linkify.dfy`, `layout.dfy`, `markdown.dfy`, `lines.dfy`,
  `format.dfy`, `words.dfy` and `phone.dfy` model `functions.ts`;
- `evaluation.dfy` and `intake.dfy` model `+page.server.ts`.

`linkify`, `convertMarkdown`, `escapeAndFormat` and the digit part of
`phoneFormat` reassign local variables step by step, so each is a method. Each
method's `ensures` ties its result to the function that specifies it. The other
helpers are single expressions and are modelled as functions.

## Model

| member | source | states |
|---|---|---|
| Escape.EscapeHTML | src/routes/functions.ts:119-135 | The escaped text is at least as long as the input, and it holds none of the special characters `<`, `>`, `"`, `'`, `/`, backquote, `=`, `:` and `?`. |
| Escape.EscapeConcat | src/routes/functions.ts:134 | Escaping works character by character: escaping `a + b` is escaping `a`, then escaping `b`. |
| Escape.EscapeUnchangedIff | src/routes/functions.ts:119-135 | Escaping leaves a text unchanged exactly when it holds none of the eleven special characters. |
| Escape.EscapeInjective | src/routes/functions.ts:119-135 | Two texts with the same escaped form are equal, so escaping loses no information. |
| Escape.EntityDecodes | src/routes/functions.ts:120-150 | The reference written for each special character is a key of the unescape map, and that key maps back to the character. |
| Escape.EntityInjective | src/routes/functions.ts:120-132 | Different special characters get different references. |
| Escape.UnescapeHTML | src/routes/functions.ts:137-156 | Defines `unescapeHTML` as written: one scan with the alternatives of the pattern in their written order, each hit replaced by its map entry (`undefined` when there is none). No contract of its own; its behaviour is stated by Escape.WrittenRoundTrip and Escape.RoundTripIffNoEquals. |
| Escape.UnescapeWith | src/routes/functions.ts:153-155 | Defines the scan shared by both unescapers, for a given list of alternatives. No contract of its own; stated through Escape.WrittenRoundTrip and Escape.FixedRoundTrip. |
| Escape.UnescapeFixed | src/routes/functions.ts:137-156 | Defines the corrected unescaper, whose `=` alternative ends with `;`. No contract of its own; Escape.FixedRoundTrip states that it undoes escaping. |
| Escape.FirstToken | src/routes/functions.ts:153 | An alternative of the unescape pattern matches only as a non-empty prefix of the remaining text, and only if it is one of the pattern's alternatives. |
| Escape.FixedTokensPrefixFree | src/routes/functions.ts:153 | With the `=` alternative spelled with its `;`, no alternative is a prefix of another, so the order of the alternatives does not matter. |
| Escape.WrittenRoundTrip | src/routes/functions.ts:134-155 | Unescaping an escaped text as written gives back the text with every `=` replaced by `undefined;`. |
| Escape.RoundTripIffNoEquals | src/routes/functions.ts:153-155 | With the unescaper as written, unescaping an escaped text restores it exactly when the text holds no `=`. |
| Escape.EqualsSignCounterexample | src/routes/functions.ts:128-155 | `=` escapes to `&#x3D;`, and the written unescaper turns that into `undefined;`. |
| Escape.FixedRoundTrip | src/routes/functions.ts:137-156 | With the `=` alternative spelled `&#x3D;`, unescaping undoes escaping for every text. |
| Linkify.Linkify | src/routes/functions.ts:194-224 | The method returns the protocol pass, then the bare-domain pass, then the e-mail pass, each applied to the result of the one before. |
| Linkify.ProtocolPass | src/routes/functions.ts:200-205 | Defines the first `replace` of `linkify`. No contract of its own; stated by Linkify.ProtocolWhole and Linkify.ProtocolPassKeepsAddresses. |
| Linkify.BarePass | src/routes/functions.ts:208-216 | Defines the second `replace`. No contract of its own; stated by Linkify.BareWhole and Linkify.BareKeepsOpened. |
| Linkify.EmailPass | src/routes/functions.ts:219-221 | Defines the third `replace`. No contract of its own; stated by Linkify.EmailWhole. |
| Linkify.ProtocolUrl | src/routes/functions.ts:195 | Defines the protocol-or-`@` pattern as a finder. No contract of its own; stated by Linkify.ProtocolWhole and Linkify.ProtocolPassKeepsAddresses. |
| Linkify.BareUrl | src/routes/functions.ts:196 | Defines the bare-domain pattern as a finder. No contract of its own; stated by Linkify.BareOpenedLength and Linkify.NoDomainAtOpening. |
| Linkify.Email | src/routes/functions.ts:197 | Defines the e-mail pattern as a finder. Its meaning is stated by Linkify.EmailFinds. |
| Linkify.AnchorWordBreak | src/routes/functions.ts:204-220 | An anchor carries the `word-break: break-all` style exactly when its text is longer than 40 characters. |
| Linkify.ProtocolWhole | src/routes/functions.ts:195-205 | A text that is exactly one protocol URL is kept unchanged if it holds `@`. Otherwise it becomes an anchor to itself that opens in a new tab. |
| Linkify.BareWhole | src/routes/functions.ts:196-216 | A text that is exactly one bare domain is kept unchanged if it holds `@` or an encoded `://`. Otherwise it becomes an anchor to `https://` plus the text, opening in a new tab. |
| Linkify.EmailWhole | src/routes/functions.ts:197-221 | A text that is exactly one e-mail address becomes a `mailto:` anchor that opens in the same tab. |
| Linkify.EmailFinds | src/routes/functions.ts:197 | The e-mail pattern matches `n` characters at `i` exactly when they form an address (user part, `@`, a domain with an inner dot) and the next character cannot continue it. |
| Linkify.ProtocolPassKeepsAddresses | src/routes/functions.ts:195-205 | A text with no `http://`, `https://` or `ftp://` opening passes the protocol pass unchanged: every match there begins at `@` and is returned as it is. |
| Linkify.BareKeepsOpened | src/routes/functions.ts:208-210 | A bare-domain match that starts at an opening (`@` or an encoded protocol, with the separator in the lower-case spelling `&#x3A;&#47;&#47;` that escaping writes) and contains all of it is returned unchanged, so an address or an anchor already written is not wrapped twice. |
| Linkify.BareOpenedLength | src/routes/functions.ts:196 | A bare-domain match that starts at an opening always contains all of that opening, and an opening of length one is `@`. |
| Linkify.NoDomainAtOpening | src/routes/functions.ts:196 | No bare domain starts where the protocol-or-`@` alternative opens. |
| Linkify.LinkifyQuiet | src/routes/functions.ts:194-224 | A text with no `&`, `@` or `.` passes all three passes unchanged. |
| Layout.ConvertNewlines | src/routes/functions.ts:285-287 | The result holds no line feed. |
| Layout.ConvertNewlinesJoinsLines | src/routes/functions.ts:285-287 | The result is the text's lines (split at line feeds) joined with `<br>`. |
| Layout.ConvertNewlinesLaws | src/routes/functions.ts:285-287 | A text without a line feed is unchanged, and the conversion distributes over concatenation. |
| Layout.PreserveIsLeading | src/routes/functions.ts:290-294 | The `replace` with `/^[\s\t]+/gm` equals a one-pass reference that expands every white-space run starting at a line start and copies everything else. |
| Layout.PreserveLeadingSpaces | src/routes/functions.ts:290-294 | Defines the `replace` with `/^[\s\t]+/gm` as written. No contract of its own; Layout.PreserveIsLeading ties it to the one-pass reference. |
| Layout.LeadingRunExpands | src/routes/functions.ts:291-293 | A run of white space at a line start becomes `&nbsp;` per space and four per tab, and other white-space characters are kept. |
| Layout.LeadingKeepsLineBody | src/routes/functions.ts:290-294 | A single line that does not open with white space is unchanged. |
| Layout.LeadingKeepsOthers | src/routes/functions.ts:291-293 | A text with no space and no tab is unchanged. |
| Layout.LeadingConcatLine | src/routes/functions.ts:291 | After a line terminator a new line starts: the part after it is processed as the start of a text. |
| Placeholder.Stash | src/routes/functions.ts:245-256 | The method returns the text with every match replaced, and the queue of exactly the contents the callback pushed, in scan order. |
| Placeholder.Restore | src/routes/functions.ts:276-279 | The method returns the text with each placeholder replaced by the queue entry it shifts off, and the queue that remains. |
| Placeholder.RestoreStep | src/routes/functions.ts:276-279 | The first placeholder gets the front of the queue, or the empty text when the queue is empty. The rest is restored from the queue without that entry. |
| Placeholder.RestoreWeave | src/routes/functions.ts:276-279 | Pieces separated by placeholders are restored to the pieces with the queue entries woven between them in order, and the queue loses one entry per placeholder. |
| Placeholder.RestoreNothing | src/routes/functions.ts:276-279 | A text with no placeholder comes back unchanged, and so does the queue. |
| Placeholder.RestoreRejoins | src/routes/functions.ts:251-279 | Pieces joined by placeholders and restored from a queue that repeats one text come back joined by that text. |
| Markdown.ConvertMarkdown | src/routes/functions.ts:227-282 | The method's result equals `Converted`, the rules in source order: fences, parking pre blocks, parking link texts, styles, bullet and numbered items, headings, list merging, restoring pre blocks, restoring links. |
| Markdown.Converted | src/routes/functions.ts:227-282 | Defines the conversion as the composition of the rules in source order. No contract of its own; Markdown.ConvertMarkdown ties the method to it and Markdown.PlainUnchanged states a property of it. |
| Markdown.FencedCode | src/routes/functions.ts:231 | Defines the fenced-code pattern as a finder. No contract of its own; used by Markdown.Converted. |
| Markdown.Styled | src/routes/functions.ts:259-270 | Defines the style, list and heading rules in their order. No contract of its own; stated by Markdown.StyleWraps and the LineRules lemmas. |
| Markdown.BulletItem | src/routes/functions.ts:232 | Defines the bullet pattern as a finder. Stated by Markdown.BulletLine and LineRules.BulletLinesListed. |
| Markdown.NumberedItem | src/routes/functions.ts:233 | Defines the numbered pattern as a finder. Stated by LineRules.NumberedLine and LineRules.NumberedLinesListed. |
| Markdown.Heading | src/routes/functions.ts:234 | Defines the heading pattern as a finder. Stated by LineRules.HeadingLine and LineRules.ConsecutiveHeadings. |
| Markdown.Fenced | src/routes/functions.ts:242 | Defines the fence `replace`. No contract of its own; used by Markdown.Converted. |
| Markdown.PreBlock | src/routes/functions.ts:245 | Defines the `<pre>` block pattern as a finder. Stated by Markdown.PreBlockRoundTrip. |
| Markdown.PreStash | src/routes/functions.ts:245-248 | Defines the parking callback's returned text. Stated by Markdown.PreBlockParked. |
| Markdown.AnchorTag | src/routes/functions.ts:251 | Defines the anchor pattern as a finder. Stated by Markdown.LinkRoundTrip. |
| Markdown.LinkStash | src/routes/functions.ts:251-256 | Defines the link-parking callback's returned text. Stated by Markdown.LinkRoundTrip and Markdown.EmptyLinkRoundTrip. |
| Markdown.Delimited | src/routes/functions.ts:228-230 | Defines the bold, italic and crossed patterns as finders for a given marker. Stated by Markdown.StyleWraps. |
| Markdown.Bullets | src/routes/functions.ts:262-265 | Defines the bullet `replace`. No contract of its own; stated by Markdown.BulletLine and LineRules.BulletLinesListed. |
| Markdown.Numbered | src/routes/functions.ts:266-269 | Defines the numbered `replace`. No contract of its own; stated by LineRules.NumberedLine and LineRules.NumberedLinesListed. |
| Markdown.Headings | src/routes/functions.ts:270 | Defines the heading `replace`. No contract of its own; stated by LineRules.HeadingLine and LineRules.ConsecutiveHeadings. |
| Markdown.MergeLists | src/routes/functions.ts:273 | Defines the two merging `replace` calls. No contract of its own; stated by Markdown.BulletListsMerge and Markdown.NumberedListsMerge. |
| Markdown.PlainUnchanged | src/routes/functions.ts:227-282 | A text with none of the characters any rule reacts to passes the whole conversion unchanged. |
| Markdown.StyleWraps | src/routes/functions.ts:228-261 | `*x*`, `_x_` and `~x~`, with no marker and no `<br>` inside, become `x` wrapped in `strong`, `em` and `s`. |
| Markdown.BulletIndentCount | src/routes/functions.ts:262-263 | For a bullet line opened by `n` non-breaking spaces, the indent the callback counts is `n`. |
| Markdown.BulletLine | src/routes/functions.ts:262-265 | A bullet line opened by `n` non-breaking spaces and `- ` becomes a one-item `ul` holding `BulletEntryAt(n, x)`: an item with a left margin of `n` characters holding the rest of the line `x`. |
| LineRules.BulletLinesListed | src/routes/functions.ts:262-265 | Any number of consecutive `- x` lines separated by `<br>` become the same number of consecutive one-item `ul` lists, in line order, each `<br>` consumed by the item before it. |
| LineRules.BulletLinesMerge | src/routes/functions.ts:262-273 | Consecutive `- x` lines whose items hold no list tags end up, after the bullet rule and the merge, as a single `ul` holding every item in line order. |
| LineRules.NumberedLine | src/routes/functions.ts:266-269 | A line opened by `n` non-breaking spaces and a digit, `.` or `)` and a space becomes a one-item `ol` whose item is indented `n` characters, with the marker in the hanging span and the rest of the line as the item. |
| LineRules.NumberedLinesListed | src/routes/functions.ts:266-269 | Any number of consecutive numbered lines separated by `<br>` become the same number of consecutive one-item `ol` lists, in line order, each keeping its own marker. |
| LineRules.NumberedLinesMerge | src/routes/functions.ts:266-273 | Consecutive numbered lines whose items hold no list tags end up, after the numbered rule and the merge, as a single `ol` holding every item in line order. |
| Markdown.BulletListsMerge | src/routes/functions.ts:273 | Consecutive one-item bullet lists become one list holding all the items in order. |
| Markdown.NumberedListsMerge | src/routes/functions.ts:273 | Consecutive one-item numbered lists become one list holding all the items in order. |
| Markdown.LinkRoundTrip | src/routes/functions.ts:251-279 | An anchor whose link text is parked and then restored comes back unchanged, and no queue entry is left. |
| Markdown.EmptyLinkRoundTrip | src/routes/functions.ts:252-279 | For an empty link text, which occurs at every position, the anchor still comes back unchanged and the queue is emptied. |
| Markdown.PreBlockRoundTrip | src/routes/functions.ts:245-276 | For any content `c` in which no `</pre><br>` starts, `<pre>c</pre><br>` is one match of length `|c| + 15` whose group is `c`; the queue receives exactly `c`, and restoring the parked text gives back `<pre>c</pre>`, the block without its `<br>`. |
| Markdown.PreBlockParked | src/routes/functions.ts:245-248 | When no occurrence of `c` starts inside the opening `<pre>` tag, parking `<pre>c</pre><br>` leaves `<pre>`, the placeholder and `</pre>`. |
| Markdown.MultiLineBlockRoundTrip | src/routes/functions.ts:245-276 | A block whose content spans two lines (`x<br>y`) is parked and restored like any other. |
| LineRules.HeadingLine | src/routes/functions.ts:234-270 | A `#` line of its own becomes an `h2` heading holding the rest of the line. |
| LineRules.ConsecutiveHeadings | src/routes/functions.ts:234-270 | For any two heading texts `x` and `y`, in two `#` lines in a row only the first becomes a heading: its match consumes the `<br>` that the second one needs, so the second line stays as it is. |
| Format.EscapeAndFormat | src/routes/functions.ts:296-302 | The method returns the five stages applied in source order. |
| Format.ProseIsInert | src/routes/functions.ts:296-302 | Escaping, linking and the Markdown conversion leave unchanged a text of letters, spaces, commas and exclamation marks. |
| Format.LineKeepsLayout | src/routes/functions.ts:285-294 | A single line that does not open with white space passes the two layout stages unchanged. |
| Format.ProseUnchanged | src/routes/functions.ts:296-302 | One line of plain prose that does not open with a space is shown exactly as typed. |
| Words.UpperFirst | src/routes/functions.ts:12 | Defines the upper-casing of the first character. No contract of its own; used by Words.CamelOnlyInsertsSpaces. |
| Words.CamelCaseToSpaced | src/routes/functions.ts:9-13 | Defines `camelCaseToSpaced` as its three steps. No contract of its own; stated by Words.CamelHasNoHump, Words.CamelOnlyInsertsSpaces and Words.CamelUnchanged. |
| Words.CapitalizeWords | src/routes/functions.ts:15-19 | Defines `capitalizeWords` as split, map and join. No contract of its own; stated by Words.CapitalizeMatchesReference and Words.CapitalizeWordsSpec. |
| Words.StripTags | src/routes/functions.ts:23 | Defines the tag replacement. No contract of its own; stated by Words.StripTagsRemovesTags and Words.StripTagsUnchanged. |
| Words.ShortenString | src/routes/functions.ts:21-34 | Defines `shortenString`. No contract of its own; stated by Words.ShortenShortText, Words.ShortenLongText and Words.ShortenWordCount. |
| Words.CamelHasNoHump | src/routes/functions.ts:9-13 | The result has no lower-case letter directly followed by an upper-case one. |
| Words.CamelOnlyInsertsSpaces | src/routes/functions.ts:9-13 | Removing the spaces from the result gives the input with its first letter upper-cased: only spaces are inserted. |
| Words.CamelUnchanged | src/routes/functions.ts:9-13 | A text with no hump, no acronym end and no lower-case first letter is unchanged. |
| Words.CamelExample | src/routes/functions.ts:9-13 | `firstName` becomes `First Name`. |
| Words.AcronymExample | src/routes/functions.ts:10-11 | `CVFile` becomes `CV File`. |
| Words.CapitalizeMatchesReference | src/routes/functions.ts:15-19 | Splitting at spaces, capitalising each word and joining with spaces equals one left-to-right pass that upper-cases each character at a word start. |
| Words.CapitalizeWordsSpec | src/routes/functions.ts:15-19 | The length is kept. A character is upper-cased exactly when it starts a word, and every other character is kept. |
| Words.CapitalizeIdempotent | src/routes/functions.ts:15-19 | Capitalising twice gives the same result as capitalising once. |
| Words.StripTagsRemovesTags | src/routes/functions.ts:23 | No `<...>` tag remains once each tag is replaced by a space. |
| Words.StripTagsUnchanged | src/routes/functions.ts:23 | A text with no `<` is unchanged by the tag replacement. |
| Words.ShortenShortText | src/routes/functions.ts:23-33 | With at most thirty words, the result is the text with each tag replaced by a space. |
| Words.ShortenLongText | src/routes/functions.ts:23-31 | With more than thirty words, the result is the prefix of the text (tags replaced by spaces) that holds exactly its first thirty words, followed by `...`. |
| Words.ShortenWordCount | src/routes/functions.ts:21-34 | Every result is at most thirty words, possibly followed by `...`. |
| Phone.Digits | src/routes/functions.ts:163 | The kept characters are all digits and are no more than the input. |
| Phone.FormatDigits | src/routes/functions.ts:163-174 | The method's result is `PhoneFormat` of the value, and it holds the same digits as the value. |
| Phone.PhoneLayout | src/routes/functions.ts:164-174 | Defines the layout branches by digit count. No contract of its own; stated by Phone.LayoutKeepsDigits and the three examples. |
| Phone.PhoneFormat | src/routes/functions.ts:163-174 | Defines the new value as the layout of the kept digits. No contract of its own; stated by Phone.FormatKeepsDigits, Phone.FormatIdempotent and Phone.FormatAlphabet. |
| Phone.LayoutKeepsDigits | src/routes/functions.ts:164-174 | Every layout branch keeps the digits it is given, in order. |
| Phone.FormatKeepsDigits | src/routes/functions.ts:163-174 | The formatted number holds exactly the digits of the typed value. |
| Phone.FormatIdempotent | src/routes/functions.ts:163-174 | Formatting an already formatted number changes nothing. |
| Phone.FormatAlphabet | src/routes/functions.ts:163-174 | The formatted number holds only digits and the punctuation `+`, `(`, `)`, space and `-`. |
| Phone.TenDigitExample | src/routes/functions.ts:172 | `5551234567` is laid out as `(555) 123-4567`. |
| Phone.CountryCodeExample | src/routes/functions.ts:170 | `15551234567` is laid out as `+1 (555) 123-4567`. |
| Phone.SevenDigitExample | src/routes/functions.ts:173 | `5551234` is laid out as `555-1234`. |
| Phone.BracketDeletionKept | src/routes/functions.ts:163-174 | Deleting the closing bracket of a formatted ten-digit number computes the same layout again. This is about the computed value only: when it equals the cached previous value, the field is not reassigned. |
| Evaluation.FormatAIEvaluation | src/routes/+page.server.ts:353-367 | Defines `formatAIEvaluation`: bold, subtitles, split, and one paragraph per trimmed section. No contract of its own; stated by Evaluation.OneParagraph, Evaluation.TwoParagraphs and Evaluation.ParagraphTrimmed. |
| Evaluation.Bold | src/routes/+page.server.ts:355 | Defines the bold pattern as a finder. Its meaning is stated by Evaluation.BoldMatch. |
| Evaluation.Subtitle | src/routes/+page.server.ts:358 | Defines the subtitle pattern as a finder. Stated by Evaluation.SubtitleLine, Evaluation.SubtitleAmongLines and Evaluation.BareMarkTakesNextLine. |
| Evaluation.Break | src/routes/+page.server.ts:362 | Defines the split pattern as a finder. Stated by Evaluation.BreakIff, Evaluation.BlankLineBreaks and Evaluation.NumberedItemBreaks. |
| Evaluation.BoldMatch | src/routes/+page.server.ts:355 | The bold pattern matches at `i` exactly when `**` is there and closes later on the same line. The group is the text up to the nearest closing `**`. |
| Evaluation.BoldWraps | src/routes/+page.server.ts:355 | `**x**`, with no `*` and no line break in `x`, becomes `x` wrapped in `strong`. |
| Evaluation.SubtitleLine | src/routes/+page.server.ts:358 | `###`, some white space and the rest of the line become an `h3` subtitle holding that rest. |
| Evaluation.SubtitleAmongLines | src/routes/+page.server.ts:358 | A `###` line among other lines becomes an `h3` subtitle holding the rest of its line, and the lines before and after it, which start with no `###` of their own, are left unchanged. The rest of the line must be non-empty and open with a non-space character; otherwise `\s*` runs on into the next line. |
| Evaluation.BareMarkTakesNextLine | src/routes/+page.server.ts:358 | A `###` alone on its line takes the next line as its subtitle, because `\s*` also matches the line feed. |
| Evaluation.NoMarkUnchanged | src/routes/+page.server.ts:358 | A text with no `###` at a line start is unchanged by the subtitle rule. |
| Evaluation.SectionsRejoin | src/routes/+page.server.ts:361-362 | There is one more section than there are separators, and the sections with the separators between them rebuild the text. |
| Evaluation.BlankLineBreaks | src/routes/+page.server.ts:362 | Every blank line (`\n\n`) is a place where the text is split. |
| Evaluation.NumberedItemBreaks | src/routes/+page.server.ts:362 | Every line feed followed by a digit, `.` and a space is a place where the text is split. |
| Evaluation.BreakIff | src/routes/+page.server.ts:362 | The text is split at `j` exactly when `\n`, white space and `\n` starts there, or `\n`, one or more digits, `.` and a white-space character does; every match is one of these two shapes. |
| Evaluation.NoBreakOneSection | src/routes/+page.server.ts:362 | A text in which neither separator shape occurs anywhere is one section. |
| Evaluation.SingleLineFeedKeeps | src/routes/+page.server.ts:362 | Two lines joined by a single line feed stay in one section when the second opens with neither white space nor a digit, so a paragraph keeps its single line breaks. |
| Evaluation.NoBlankLineInSection | src/routes/+page.server.ts:362 | No section holds a blank line. |
| Evaluation.NoNumberedItemInSection | src/routes/+page.server.ts:362 | No section holds a line feed followed by a numbered item. |
| Evaluation.ParagraphTrimmed | src/routes/+page.server.ts:363 | Each paragraph wraps the trimmed section, which neither begins nor ends with white space. |
| Evaluation.QuietText | src/routes/+page.server.ts:355-358 | A text with no `*` and no `#` passes the bold and subtitle rules unchanged. |
| Evaluation.OneParagraph | src/routes/+page.server.ts:353-367 | A one-line text with no markers becomes a single paragraph holding the trimmed text. |
| Evaluation.TwoSections | src/routes/+page.server.ts:362 | Two lines separated by a blank line split into exactly those two sections. |
| Evaluation.TwoParagraphs | src/routes/+page.server.ts:353-367 | Two plain lines separated by a blank line become two consecutive paragraphs. |
| Intake.DropSpaces | src/routes/+page.server.ts:189 | The result holds no white space and is no longer than the input. |
| Intake.SqueezeDropsSpaces | src/routes/+page.server.ts:189 | `replace(/\s+/g, '')` on the name equals dropping every white-space character. |
| Intake.Squeeze | src/routes/+page.server.ts:189 | Defines `replace(/\s+/g, '')`. Stated by Intake.SqueezeDropsSpaces. |
| Intake.Extension | src/routes/+page.server.ts:189 | Defines `split('.').pop()`. Stated by Intake.ExtensionAfterLastDot. |
| Intake.Rejects | src/routes/+page.server.ts:207 | Defines the written guard. Stated by Intake.RejectsIff. |
| Intake.NewFileName | src/routes/+page.server.ts:189 | The new file name is never empty. |
| Intake.ExtensionAfterLastDot | src/routes/+page.server.ts:189 | The extension holds no `.`. It is the whole name when the name has no `.`, and otherwise the name is a stem, a `.` and the extension. |
| Intake.NewFileNameShape | src/routes/+page.server.ts:180-189 | The new name is the full name (or `null` when missing) without white space, a `.`, and the extension of the uploaded name. |
| Intake.RenameKeepsExtension | src/routes/+page.server.ts:189 | Renaming keeps the uploaded file's extension. |
| Intake.RenameIdempotent | src/routes/+page.server.ts:189 | Renaming an already renamed file gives the same name. |
| Intake.Renamed | src/routes/+page.server.ts:185-196 | The CV counts as present after renaming exactly when it did before. |
| Intake.RejectsIff | src/routes/+page.server.ts:207-211 | The written guard refuses exactly when there is no CV with a name and the four fields are not all filled in. |
| Intake.Decide | src/routes/+page.server.ts:185-266 | A request is refused exactly when it has neither a named CV nor complete fields, always with the same error. An accepted request carries an attachment or a non-empty fields block. |
| Intake.BlankCvNameRefused | src/routes/+page.server.ts:187-207 | A CV with an empty name and incomplete fields is refused. |
| Intake.ExtraHtml | src/routes/+page.server.ts:252-258 | The fields block of the e-mail HTML is non-empty exactly when all four fields are filled in. |
| Intake.FieldsInfo | src/routes/+page.server.ts:205-265 | The plain-text fields block is non-empty exactly when all four fields are filled in. |
| Intake.FieldsInfoLines | src/routes/+page.server.ts:260-265 | The plain-text block is an empty line, then one line per field with its label and value, then the closing indentation. |
| Intake.ExtraHtmlLines | src/routes/+page.server.ts:253-258 | The HTML block is an empty line, then one paragraph line per field with its label in bold and its value, then the closing indentation. |

## Left out

- `isGeneratedAvatarUrl`, `isGeneratedBlobUrl`, the DOM, timer, scrolling and storage helpers of `functions.ts`: they work on the browser, not on text.
- The cursor handling of `phoneFormat` (counting non-digits, restoring `selectionStart`) and its module-level `previousPhone` cache: they depend on the input element and on earlier calls.
- Phone.FormatDigits: takes the field's value as a string and returns the new value; the assignment back to the input element is not modelled.
- The request handler's network, storage and mail calls, the assistant call, and the rest of the e-mail HTML apart from the fields block and the evaluation section: they are I/O.
- Form values are modelled as optional strings, and the CV as its optional file name; the `File` object and its contents are not modelled.
- Linkify.AnchorWordBreak: compares the length in characters of the model's strings; JavaScript's `length` counts UTF-16 code units, which the model equates with characters.
- Markdown.LinkRoundTrip: the link text is put into a regular expression unescaped; the model treats it as a literal text, so link texts holding regular-expression metacharacters are not modelled. Nor is the error path: `new RegExp` throws a `SyntaxError` for a link text that is not a valid pattern (such as `a++`), which aborts the whole conversion; the model has no such failure.
- Strings: a Dafny `char` is a Unicode scalar value, not a UTF-16 code unit. A character outside the Basic Multilingual Plane is one element here and two code units in JavaScript, so lengths, indices and the character classes of the patterns differ for such text, and lone surrogates cannot be written.
- Words.CapitalizeWordsSpec: upper-cases the ASCII letters `a`-`z` only; the full Unicode case mapping of `toUpperCase` is not modelled, so an accented first letter is kept as it is.
- Words.CamelOnlyInsertsSpaces: upper-cases the first character through Words.UpperFirst, which maps the ASCII letters `a`-`z` only, for the same reason.
- Words.UpperFirst: maps the ASCII letters `a`-`z` only; the full Unicode case mapping of `toUpperCase` is not modelled.
- Linkify.EmailFinds: reads the `[^\u0000-\u007F]` class of the patterns as "a character above U+007F", one UTF-16 code unit at a time.
- Markdown.BulletListsMerge: states that adjacent lists built from plain items merge. It does not claim that no `</ul><ul>` pair can remain in any text, because a single left-to-right pass can leave one: in `</ul></ul><ul><ul>` the inner pair is removed and a new pair is formed.
- Markdown.NumberedListsMerge: states that adjacent numbered lists built from plain items merge. As for bullets, it does not claim that no `</ol><ol>` pair can remain in any text.
- Text.IsSpace: follows the ECMAScript `\s` and `trim` white-space set (including U+00A0, U+FEFF and the Unicode space separators).

## Findings

| source | as written | input that shows it | evidently intended | confidence | as-written member | corrected member |
|---|---|---|---|---|---|---|
| src/routes/functions.ts:153 | The unescape pattern spells the `=` reference as `&#x3D` without `;`. That spelling is no key of the map, so the callback returns `undefined`, which `replace` writes as the text `undefined`. | `unescapeHTML(escapeHTML("="))` gives `undefined;` instead of `=` | `&#x3D;`, so that unescaping undoes escaping | not executed | Escape.RoundTripIffNoEquals, Escape.EqualsSignCounterexample | Escape.FixedRoundTrip |
