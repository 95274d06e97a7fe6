# OneNote to markdown conversion core, modelled in Dafny

This project models the pure core of a converter that turns exported OneNote
pages into Obsidian and Logseq vaults. A OneNote page is parsed into a tree
of outline elements. The Obsidian and Logseq renderers then walk that tree
and write markdown lines, naming image attachments and recording them in an
image dictionary as they go. The model covers the string and sequence logic
of that pipeline as pure functions over immutable datatypes, and proves what
each step promises.

Modules, one per source component:

- `Wrappers` (`wrappers.dfy`): `Option` and `Result`.
- `Strings` (`strings.dfy`): the helpers every converter shares, each proved against a partner. They cover character classes (Python's `str.isspace` set, ASCII `\w`, `\d` and case), `strip`, `split`/`join`, run collapsing, zero padding and decimal digits, plus a deterministic stand-in for the md5 hex digest.
- `HtmlMarkdown` (`html_markdown.dfy`): `html_to_markdown`. Entities are decoded first. Then the ordered table of tag rewrites runs, leftover tags are stripped, blank-line runs collapse and the ends are trimmed.
- `BracketEscape` (`bracket_escape.dfy`): `escape_literal_brackets_with_links`. The regular expression is worked out by hand into a deterministic scanner.
- `LogseqEscape` (`logseq_escape.dfy`): the code regions and the three Logseq escape passes (`{{`/`}}`, `::`, `((`/`))`). Each pass is modelled twice: as a right-to-left loop like the source, and as a functional definition the loop is proved equal to. The code regions are computed once, from the original text, as the source does it. `EscapeLogseqSyntax` is that behaviour as written and is what the Logseq renderers use. `EscapeLogseqSyntaxFixed` is the corrected version from "## Findings", proved on its own.
- `LogseqNaming` (`logseq_naming.dfy`): journal sections, page-name sanitising, title tag stripping, the three date patterns and journal keys, task items, priorities and block references.
- `LogseqImages` (`logseq_images.dfy`): the short slug of a name, image file names checked against the set of used names, the extension for a format, and the format hint taken from alt text or callback id.
- `TableGrid` (`table_grid.dfy`): the grid both renderers write tables from. Trailing blank cells are trimmed, then every row is padded to the widest one.
- `ContentItems` (`content_items.dfy`): the content items both renderers walk, one constructor per `type`.
- `LogseqBlocks` and `LogseqRender` (`logseq_blocks.dfy`, `logseq_render.dfy`): Logseq block lines, tables, lists and images, and the walk over outline elements. The walk threads the image dictionary, the used-name set and the block-reference map as an explicit state.
- `ObsidianNaming` and `ObsidianRender` (`obsidian_naming.dfy`, `obsidian_render.dfy`): section categories, file-name slugs, image names, internal links, frontmatter and date-like titles; text, list, image, table and outline conversion. The walk threads the image dictionary.
- `OneNoteXml` (`xml_parser.dfy`): `OneNoteXMLParser` over an abstract element tree (tag, attributes, text, children). It covers the root check, page metadata, CDATA cleanup, images, cells and tables, and the walk over outline elements. It also covers the unknown element and attribute names the parser collects.
- `LegacyMarkdown` (`legacy_markdown.dfy`): the older `MarkdownConverter`. It covers file names, pipe tables, text cleanup, its small html converter, the rendering of parsed outline elements, and the image files of a page.
- `ImageFormat` (`image_format.dfy`): format sniffing from magic bytes, the saved file's name, and the list of a page's images the extractor asks for.
- `PageOrder` (`page_order.dfy`): the numeric-prefix sort of page files and their grouping by section folder.

Side tables the source keeps in object fields are threaded through the calls as explicit parameters and results. These are the image dictionaries, the used image names and the block references. The current date is a parameter (`today`). The md5 digest is a deterministic function that returns 32 lower-case hex digits.

Each regular expression in the source is decided by hand, with the reasoning in the module's comments. Where the source's behaviour looks unintended, the model keeps the behaviour as written and proves the discrepancy on a concrete input. It then defines the corrected behaviour next to it and proves the intended property of that (see "## Findings"). The renderers and the rest of the model are built on the behaviour as written.

Some behaviour is modelled as written even though it may be surprising:

- An image listed both in a page's images and as a top-level item is numbered and saved twice by the older converter.
- The Obsidian enhanced table converts the images of cells twice: once in the embedded-image pass and once per cell. The second conversion overwrites the entry made by the first, with a name generated from the dictionary's size at that point.

## Model

| member | source | states |
|---|---|---|
| LogseqEscape.Fences | src/converters/markdown_utils.py:21-23 | every region reported from an offset starts at or after it and is a fence span: three backticks, then text up to the first closing three backticks |
| LogseqEscape.InlineCodes | src/converters/markdown_utils.py:25-27 | every region reported is a backtick span of at least one character with no backtick or newline inside |
| LogseqEscape.ExtractCodeBlocks | src/converters/markdown_utils.py:13-31 | every code region of the text is either a fenced block or an inline code span of that text |
| LogseqEscape.InCodeContext | src/converters/markdown_utils.py:34-39 | an offset is in code exactly when some region holds it in its half-open interval `start <= p < end` |
| LogseqEscape.Hits | src/converters/markdown_utils.py:79 | the offsets of a pass are exactly those where its two-character pattern matches: `{{`/`}}`, `::` with no `:` before and no `/` after, or `((`/`))` |
| LogseqEscape.Matches | src/converters/markdown_utils.py:79 | every offset `finditer` reports is a match of the pattern with both characters inside the text |
| LogseqEscape.MatchesGap | src/converters/markdown_utils.py:79 | the scan skips no match: no match starts between the scan position and the next reported match |
| LogseqEscape.MatchesResume | src/converters/markdown_utils.py:79 | after a reported match, the scan continues with exactly the matches that follow it |
| LogseqEscape.Decide | src/converters/markdown_utils.py:80-92 | an offset is escaped exactly when it lies outside every code region and, for `::`, `http` does not occur in the ten characters before it |
| LogseqEscape.DecideAt | src/converters/markdown_utils.py:88-91 | the test the loop makes on the partly rewritten text gives the same decision as on the pass's input, because the text before the offset is not yet rewritten |
| LogseqEscape.EscapePassLoop | src/converters/markdown_utils.py:79-83 | the right-to-left loop, which splices escaped pairs into `result`, computes the left-to-right rewrite of the whole pass |
| LogseqEscape.EscapeLogseqSyntaxLoops | src/converters/markdown_utils.py:72-100 | the three loops run one after the other, with regions computed once from the original text, give `EscapeLogseqSyntax` |
| LogseqEscape.OutInsertsBackslashes | src/converters/markdown_utils.py:82-83 | a pass writes each escaped pair as `\x\y`, so its output is its input with backslashes inserted |
| LogseqEscape.OutIdentity | src/converters/markdown_utils.py:79-83 | when no match is to be escaped, a pass returns its input unchanged |
| LogseqEscape.PassIdentity | src/converters/markdown_utils.py:87-92 | a pass whose every match lies in code, or follows `http` for `::`, returns its input unchanged |
| LogseqEscape.EscapeInsertsOnlyBackslashes | src/converters/markdown_utils.py:82-97 | both versions of the three passes only insert backslashes; on text without backslashes, deleting them all gives the input back |
| LogseqEscape.PassKeepsCode | src/converters/markdown_utils.py:80 | a match inside one of the given code regions is copied verbatim, between an escaped copy of the text before it and the output after it |
| LogseqEscape.FixedPassKeepsCode | src/converters/markdown_utils.py:50-52 | with regions taken from the text being scanned, every match in a fence or inline code of that text is copied verbatim |
| LogseqEscape.PassEscapesPair | src/converters/markdown_utils.py:79-92 | a reported match outside code (and, for `::`, not after `http`) is written as `\x\y`, after a backslash-inserted copy of the text before it and before the output of the rest |
| LogseqEscape.FixedKeepsCodeText | src/converters/markdown_utils.py:50-52 | corrected: when every match of the three patterns lies in a fence or inline code of the text, the corrected escape returns the text unchanged |
| LogseqEscape.FixedPassEscapes | src/converters/markdown_utils.py:79-92 | corrected: with regions taken from the text being scanned, a match outside them is written as `\x\y` |
| LogseqEscape.OneInlineRegion | src/converters/markdown_utils.py:25-27 | a text whose only backticks open and close one span has exactly that inline region |
| LogseqEscape.StaleExampleSecondPass | src/converters/markdown_utils.py:87-92 | as written, after the braces of "{{}}`::`" are escaped, the second pass escapes the `::` that now sits inside the inline code |
| LogseqEscape.StaleRegionsCounterexample | src/converters/markdown_utils.py:72-98 | on "{{}}`::`" the code as written escapes the `::` in inline code, while the corrected function leaves it alone |
| LogseqEscape.StaleExampleSecondPassFixed | src/converters/markdown_utils.py:65-66 | with the regions of its own input, the second pass keeps the `::` in inline code, as the documented intent promises |
| BracketEscape.LinkEnd | src/converters/markdown_utils.py:132-135 | a link found at an offset spans at least six characters and ends with `)` |
| BracketEscape.GroupAt | src/converters/markdown_utils.py:135 | a matched group starts with `[`, ends with `]` and has a nonempty interior |
| BracketEscape.RewriteEscapes | src/converters/markdown_utils.py:137-149 | a rewritten group is the group with backslashes inserted; it opens with a backslash exactly when the interior holds a link and has more than two `[` or a comma, and is otherwise the group itself |
| BracketEscape.EscapeFromInserts | src/converters/markdown_utils.py:152 | the substitution only inserts backslashes into the text |
| BracketEscape.EscapeInsertsOnlyBackslashes | src/converters/markdown_utils.py:147-152 | the output is the input with backslashes inserted; on text without backslashes, deleting them gives the input back |
| BracketEscape.EscapeFromIdentity | src/converters/markdown_utils.py:146-149 | text in which no matched group looks like a list of links comes back unchanged |
| BracketEscape.GroupHasLinkIffBracket | src/converters/markdown_utils.py:139-146 | inside a matched group the link search succeeds exactly when the interior holds a `[`, so a group is escaped iff it holds a `[` and has more than two of them or a comma |
| HtmlMarkdown.Unescape | src/converters/markdown_utils.py:184-186 | entity decoding never lengthens the text |
| HtmlMarkdown.UnescapePlain | src/converters/markdown_utils.py:186 | text without `&` is left as it is by the decoding |
| HtmlMarkdown.UnescapeEncode | src/converters/markdown_utils.py:184-186 | decoding undoes the encoding of `&`, `<`, `>` and `"`, so entities are decoded exactly once |
| HtmlMarkdown.Table | src/converters/markdown_utils.py:192-246 | at every offset, the entry is the rule's match there; every match lies in the text, is nonempty and starts with the rule's lead character |
| HtmlMarkdown.ApplyIdentity | src/converters/markdown_utils.py:192-246 | a rule leaves text without its lead character unchanged |
| HtmlMarkdown.ApplyAllIdentity | src/converters/markdown_utils.py:188-246 | text holding the lead character of none of the rules passes the whole table unchanged |
| HtmlMarkdown.TagPairWraps | src/converters/markdown_utils.py:192-217 | a tag rule turns `<name>x</name>` into its markdown marks around `x` when `x` holds no `<` |
| HtmlMarkdown.SpanPairWraps | src/converters/markdown_utils.py:194-213 | a styled-span rule turns `<span style='…'>x</span>` into its marks around `x` |
| HtmlMarkdown.SupWraps | src/converters/markdown_utils.py:220 | `<sup>x</sup>` becomes `^[x]` |
| HtmlMarkdown.SubWraps | src/converters/markdown_utils.py:221 | `<sub>x</sub>` becomes `~[x]` |
| HtmlMarkdown.HighlightWraps | src/converters/markdown_utils.py:223-230 | a highlight span becomes the caller's highlight token on both sides of its body |
| HtmlMarkdown.BreakHit | src/converters/markdown_utils.py:242 | `<br>` at an offset is a line-break match of four characters |
| HtmlMarkdown.BreakSlashHit | src/converters/markdown_utils.py:242 | `<br/>` at an offset is a line-break match of five characters |
| HtmlMarkdown.BreakBecomesNewline | src/converters/markdown_utils.py:241-242 | `<br>` and `<br/>` each become a single newline |
| HtmlMarkdown.TagMisses | src/converters/markdown_utils.py:192-217 | a tag rule leaves alone any text in which its tag name never follows a `<` |
| HtmlMarkdown.StrongMissesBold | src/converters/markdown_utils.py:192 | the `<strong>` rule does not touch `<b>x</b>` |
| HtmlMarkdown.BoldWraps | src/converters/markdown_utils.py:193 | the `<b>` rule turns `<b>x</b>` into `**x**` |
| HtmlMarkdown.PlainIdentity | src/converters/markdown_utils.py:188-246 | text with neither `<` nor a newline passes every rule except the citation rule unchanged |
| HtmlMarkdown.EntityEncodedBold | src/converters/markdown_utils.py:184-193 | entities are decoded before the tag rules run, so `&lt;b&gt;x&lt;/b&gt;` renders as `**x**` |
| HtmlMarkdown.RunCollapsed | src/converters/markdown_utils.py:249 | after the blank-line rule, any two newlines with only whitespace between them are adjacent |
| HtmlMarkdown.RunLeadingNewline | src/converters/markdown_utils.py:249 | the blank-line rule keeps whether the leading whitespace of the text holds a newline |
| HtmlMarkdown.HtmlToMarkdown | src/converters/markdown_utils.py:250 | the result has no leading or trailing whitespace |
| HtmlMarkdown.HtmlToMarkdownClean | src/converters/markdown_utils.py:248-250 | the result is stripped, and every newline–whitespace–newline run in it is exactly two adjacent newlines |
| LogseqNaming.IsJournalSection | src/converters/logseq_converter.py:60-63 | a section is a journal exactly when one of diary, journal, daily or log occurs in its lower-cased name |
| LogseqNaming.JournalSectionIgnoresCase | src/converters/logseq_converter.py:63 | the journal test gives the same answer for the upper-cased name |
| LogseqNaming.SanitizePageName | src/converters/logseq_converter.py:795-816 | the result is never empty, holds none of `<>:"/\|?*[]`, has no leading or trailing whitespace and no run of two whitespace characters |
| LogseqNaming.SanitizeIdempotent | src/converters/logseq_converter.py:795-816 | sanitising a sanitised name returns it unchanged |
| LogseqNaming.CleanedAvoids | src/converters/logseq_converter.py:805-811 | filtering, squeezing and stripping leave no forbidden character |
| LogseqNaming.StripHtmlTags | src/converters/logseq_converter.py:779-793 | the result is stripped and its whitespace comes only as single spaces |
| LogseqNaming.StripHtmlTagsPlain | src/converters/logseq_converter.py:784-791 | text without tags or entities only has its whitespace squeezed and stripped |
| LogseqNaming.DigitRun | src/converters/logseq_converter.py:648-652 | `\d{1,max}` is greedy: the run is all digits and stops at a non-digit, the end or `max` digits |
| LogseqNaming.MonthAt | src/converters/logseq_converter.py:648 | the month found at an offset is the first month, in calendar order, whose name occurs there; none is found only if no name occurs |
| LogseqNaming.MonthOccursOnce | src/converters/logseq_converter.py:648 | two month names cannot both occur at one offset, so the alternation's order never matters |
| LogseqNaming.MonthToNumber | src/converters/logseq_converter.py:694-701 | the result is always two digits whose value lies between 01 and 12 |
| LogseqNaming.UnknownMonthNumber | src/converters/logseq_converter.py:701 | a name that is no month in any case falls back to `01` |
| LogseqNaming.MonthNumberOfName | src/converters/logseq_converter.py:696-701 | every month name, in any case, maps to its calendar number |
| LogseqNaming.IsoOf | src/converters/logseq_converter.py:649-653 | the formatted date has the shape `YYYY-MM-DD` and holds the three fields in that order |
| LogseqNaming.Pad2 | src/converters/logseq_converter.py:649-653 | `zfill(2)` keeps two digits and puts a `0` before one |
| LogseqNaming.DayMonthYearAt | src/converters/logseq_converter.py:648-649 | a day–month-name–year match is formatted as `YYYY-MM-DD` |
| LogseqNaming.IsoDateAt | src/converters/logseq_converter.py:650-651 | an ISO match is formatted as `YYYY-MM-DD` with padded fields |
| LogseqNaming.SlashDateAt | src/converters/logseq_converter.py:652-653 | a slash date is read as month/day/year and formatted as `YYYY-MM-DD` |
| LogseqNaming.FindDate | src/converters/logseq_converter.py:657 | `re.search` finds the leftmost offset where the pattern matches, and nothing when it matches nowhere |
| LogseqNaming.FirstDate | src/converters/logseq_converter.py:656-663 | the patterns are tried in order and the first that matches anywhere wins; there is no result exactly when none matches |
| LogseqNaming.TryParseDate | src/converters/logseq_converter.py:637-663 | a result always has the shape `YYYY-MM-DD`; there is none exactly when the text is empty or no pattern matches anywhere |
| LogseqNaming.ParseTakesDayMonthYear | src/converters/logseq_converter.py:647-657 | when a day–month-name–year date occurs, the leftmost one wins over the other two patterns |
| LogseqNaming.DayMonthYearParses | src/converters/logseq_converter.py:648-649 | `D Month YYYY` parses to the year, the month's calendar number and the zero-padded day |
| LogseqNaming.FirstDateIso | src/converters/logseq_converter.py:650-651 | an ISO date matches no day–month-year pattern and is returned by the ISO pattern unchanged |
| LogseqNaming.ParseDateIdempotent | src/converters/logseq_converter.py:637-663 | a parsed date parses to itself |
| LogseqNaming.FormatJournalDate | src/converters/logseq_converter.py:686-692 | the result is never empty; a parsed date gives `YYYY_MM_DD`, anything else gives a sanitised page name |
| LogseqNaming.MarchExample | src/converters/logseq_converter.py:648-649 | "15 March 2024" parses to `2024-03-15` and names the journal `2024_03_15` |
| LogseqNaming.OrdinalSuffix | src/converters/logseq_converter.py:673 | the suffix is one of st, nd, rd and th |
| LogseqNaming.OrdinalSuffixDays | src/converters/logseq_converter.py:673 | for days 1 to 31 the suffix is st exactly for 1, 21 and 31, nd for 2 and 22, and rd for 3 and 23 |
| LogseqNaming.RestOfLine | src/converters/logseq_converter.py:610 | the group `\s*(.+)$` captures a nonempty text without a newline |
| LogseqNaming.RestOfLineIs | src/converters/logseq_converter.py:610 | after optional whitespace, the rest of a one-line text is captured whole |
| LogseqNaming.Checkbox | src/converters/logseq_converter.py:610-612 | a checkbox match captures a nonempty one-line text |
| LogseqNaming.TaskPrefix | src/converters/logseq_converter.py:615-617 | a keyword-prefix match captures a nonempty one-line text |
| LogseqNaming.ParseTaskItemTail | src/converters/logseq_converter.py:607-619 | the parsed text is the whole input, or a tail of its first line: markers are only dropped, never added |
| LogseqNaming.IsTaskItemMatches | src/converters/logseq_converter.py:594-605 | a text is a task item exactly when, after leading whitespace, it opens with a checkbox, with `TODO`/`DONE`/`TASK` (optional colon) and whitespace, or with `-`/`*` and such a keyword |
| LogseqNaming.StateWord | src/converters/logseq_converter.py:616 | each state is written as one of the four-letter task keywords |
| LogseqNaming.TaskRoundTrip | src/converters/logseq_converter.py:594-619 | `TODO x` and `DONE x` are task items and parse back to their state and text |
| LogseqNaming.KeywordColonItem | src/converters/logseq_converter.py:615-617 | a keyword in any case, a colon, a space and text gives DONE for done and TODO otherwise, with the text |
| LogseqNaming.BuyMilkExample | src/converters/logseq_converter.py:615-617 | "TODO: Buy milk" parses to (TODO, "Buy milk") |
| LogseqNaming.CheckboxItem | src/converters/logseq_converter.py:610-612 | `[x]` and `[X]` give DONE, `[ ]` gives TODO, with the text after the box |
| LogseqNaming.FindWord | src/converters/logseq_converter.py:587 | a word is found exactly when it occurs between word boundaries at or after the offset |
| LogseqNaming.AnyWord | src/converters/logseq_converter.py:587-589 | the alternation matches exactly when one of its words occurs between word boundaries |
| LogseqNaming.DetectPriority | src/converters/logseq_converter.py:585-592 | A exactly for an urgent-class word, B exactly for an important-class word without one, C otherwise |
| LogseqNaming.PriorityIgnoresCase | src/converters/logseq_converter.py:587-589 | the priority of the upper-cased text is the same |
| LogseqNaming.UrgentWins | src/converters/logseq_converter.py:587-588 | an urgent word standing alone gives A, whatever else the text holds |
| LogseqNaming.BlockReference | src/converters/logseq_converter.py:773-777 | the reference is `#^` followed by the first eight lowercase hex digits of the id's digest |
| LogseqImages.DropCommon | src/converters/logseq_converter.py:831-834 | the kept words are the input's words that are not common words, none lost and none added |
| LogseqImages.Slug | src/converters/logseq_converter.py:829-842 | the slug holds only `a-z`, `0-9` and `-`, with no two `-` in a row |
| LogseqImages.Truncate | src/converters/logseq_converter.py:844-862 | truncation keeps slug characters and leaves a slug that already fits unchanged |
| LogseqImages.Shorten | src/converters/logseq_converter.py:819-864 | the short name is never empty, holds only slug characters, and neither starts nor ends with `-` |
| LogseqImages.ShortenName | src/converters/logseq_converter.py:851-864 | as written: the result is a nonempty slug that neither starts nor ends with `-` |
| LogseqImages.ShortenLength | src/converters/logseq_converter.py:857 | as written, the result is at most one character longer than `max_length`, unless it is `img` |
| LogseqImages.ShortenOverflows | src/converters/logseq_converter.py:852-857 | when the first word fills the room exactly, as written the next word is still cut to one letter, one character past `max_length`; corrected, the first word stands alone |
| LogseqImages.ShortenOverflow | src/converters/logseq_converter.py:857 | as written, shortening "abcdefg xyz" to 8 gives the nine characters `abcdefg-x`; corrected, `abcdefg` |
| LogseqImages.ShortenNameFixed | src/converters/logseq_converter.py:851-864 | corrected: the result is a nonempty slug that neither starts nor ends with `-` |
| LogseqImages.ShortenFixedLength | src/converters/logseq_converter.py:826 | corrected: the result never exceeds `max_length`, unless it is `img` |
| LogseqImages.GreedyWidth | src/converters/logseq_converter.py:851-860 | the greedy loop never writes past `max_length`, except by what the abbreviation floor forces |
| LogseqImages.TwoWordSlug | src/converters/logseq_converter.py:829-842 | two lower-case words that are not common words give the slug `a-b` |
| LogseqImages.ImageExtension | src/converters/logseq_converter.py:902-919 | the extension is one of jpg, png, gif, bmp and webp; jpeg and jpg give jpg, a known format gives itself, anything else gives png |
| LogseqImages.ExtensionIdempotent | src/converters/logseq_converter.py:902-919 | an extension names its own format |
| LogseqImages.DetectImageFormatHint | src/converters/logseq_converter.py:921-947 | a hint is one of jpeg, png, gif, bmp and webp; a jpeg mention in the alt text gives jpeg; no hint means the alt text names no format |
| LogseqImages.HintExtension | src/converters/logseq_converter.py:881-887 | a hint becomes the extension of its format |
| LogseqImages.Counter | src/converters/logseq_converter.py:883 | the counter is all digits, reads back as the count, and is exactly three digits below 1000 |
| LogseqImages.BaseName | src/converters/logseq_converter.py:878-884 | the base name is at most 23 characters for counts below 1000, since each shortened part may run one character past its limit of 8 |
| LogseqImages.HashSuffix | src/converters/logseq_converter.py:892-894 | the suffix is four lowercase hex digits |
| LogseqImages.GenerateImageName | src/converters/logseq_converter.py:866-900 | the chosen name joins the used set; an unused plain name is taken as is, a used one gets a four-hex suffix; names stay within 33 characters for counts below 1000 |
| LogseqImages.GeneratedNameFresh | src/converters/logseq_converter.py:888-898 | a name not yet used comes out fresh, and only that name is added to the used set |
| LogseqImages.GeneratedNameChars | src/converters/logseq_converter.py:884-895 | a generated name holds only slug characters and the dot |
| TableGrid.TrimCells | src/converters/logseq_converter.py:417-419 | the trimmed row is a prefix of the row, ends in a non-blank cell or is empty, and only blank cells were dropped |
| TableGrid.MaxWidth | src/converters/logseq_converter.py:423-424 | the width is at least every row's length and is the length of some row, or 0 for no rows |
| TableGrid.Pad | src/converters/logseq_converter.py:429-432 | the padded row has the width, keeps its cells in front and adds only empty cells |
| TableGrid.Grid | src/converters/logseq_converter.py:417-432 | there is one row per input row, all of the first row's width, each at least as long as its trimmed row |
| TableGrid.GridKeepsCells | src/converters/logseq_converter.py:417-432 | trimming a grid row gives the trimmed input row back, and every non-blank cell stays in its place |
| TableGrid.RowPipes | src/converters/obsidian_converter.py:388-394 | a pipe-table line of pipe-free cells has one more pipe than cells |
| LogseqBlocks.HeadingMarks | src/converters/logseq_converter.py:213-216 | an outline level above 0 gives `min(level + 1, 6)` heading marks, level 0 gives none |
| LogseqBlocks.BlockRoundTrip | src/converters/logseq_converter.py:210-218 | a rendered block line parses back to its indent, heading marks and text |
| LogseqBlocks.TextLine | src/converters/logseq_converter.py:210-218 | the line of a converted text reads back as the block with its indent, heading marks and text |
| LogseqBlocks.ConvertText | src/converters/logseq_converter.py:193-218 | blank text gives no line and any other text gives exactly one block line of the converted text |
| LogseqBlocks.WithRef | src/converters/logseq_converter.py:154 | a line without `- ` is left as it is |
| LogseqBlocks.WithRefAfterBullet | src/converters/logseq_converter.py:152-154 | on a block line the reference lands right after the bullet |
| LogseqBlocks.TextLineRef | src/converters/logseq_converter.py:150-155 | a text line with a reference holds the bullet, the reference, the heading marks and the text, in that order |
| LogseqBlocks.RefLineParses | src/converters/logseq_converter.py:152-154 | a plain text line with a reference reads back as a block whose text opens with the reference |
| LogseqBlocks.ListLinePlainParses | src/converters/logseq_converter.py:452-473 | an entry that is not a task and does not open with `#` is written as a block line that parses back to that entry at the given indent |
| LogseqBlocks.TaskLineStable | src/converters/logseq_converter.py:458-468 | a written task line is again a task item and parses to the same state and text |
| LogseqBlocks.ConvertList | src/converters/logseq_converter.py:444-475 | one line per entry, in order, each written from the entry's converted text |
| LogseqBlocks.ConvertHtmlContent | src/converters/logseq_converter.py:477-488 | exactly one bullet line at the indent whose text is never blank; that text is the converted html exactly when the conversion is not blank |
| LogseqBlocks.LinkMatchAt | src/converters/logseq_converter.py:404 | a link match spans at least five characters and ends with `)` |
| LogseqBlocks.LinkMatchOfImage | src/converters/logseq_converter.py:404 | the lazy pattern matches a whole `![alt](target)` at its own place |
| LogseqBlocks.ImageLinkAfter | src/converters/logseq_converter.py:404 | with no `!` before it, the first link the search finds in the line is this one |
| LogseqBlocks.ImageLinkInLine | src/converters/logseq_converter.py:402-405 | the search finds the whole link in an image block line |
| LogseqBlocks.LayOutTable | src/converters/logseq_converter.py:417-442 | all-blank cells give the placeholder; otherwise one line per row, the first in bold, cells joined by ` \| ` and padded to the widest row |
| LogseqBlocks.ConvertSimpleTable | src/converters/logseq_converter.py:330-368 | no rows give the empty-table placeholder; otherwise there is either one placeholder line or one line per row |
| LogseqRender.Record | src/converters/logseq_converter.py:138-145 | a truthy object id records its reference and nothing else changes; any other id leaves the tables alone |
| LogseqRender.StoreImage | src/converters/logseq_converter.py:279-300 | the entry is stored under the callback id, its file name joins the used names, the link is built from the alt text and the name, and the tables stay valid |
| LogseqRender.ConvertImage | src/converters/logseq_converter.py:268-309 | without a callback id: one placeholder line and unchanged tables; with one: the link line, plus an italic caption exactly when the alt text is meaningful |
| LogseqRender.ImageLineLink | src/converters/logseq_converter.py:400-405 | the link the cell code extracts from an image's first line is the image's own link |
| LogseqRender.ConvertImages | src/converters/logseq_converter.py:384-387 | every embedded image with a callback id ends up in the dictionary, and the tables only grow |
| LogseqRender.WithImageLink | src/converters/logseq_converter.py:402-409 | the text so far stays a prefix; when the line holds `![` and a link is found, the link ends the result, which adds at most one space besides it; without a link nothing changes |
| LogseqRender.AddCellImages | src/converters/logseq_converter.py:398-409 | the cell's text stays in front and the image links only follow it |
| LogseqRender.CellWithImage | src/converters/logseq_converter.py:398-409 | a cell with one image gets that image's link after its text |
| LogseqRender.CellText | src/converters/logseq_converter.py:394-415 | a plain cell is only converted and leaves the tables alone |
| LogseqRender.ConvertCells | src/converters/logseq_converter.py:394-415 | one converted cell per cell |
| LogseqRender.ConvertRows | src/converters/logseq_converter.py:391-421 | one converted row per row, each as long as its input row |
| LogseqRender.ConvertEnhancedTable | src/converters/logseq_converter.py:370-442 | a missing structure gives the invalid-table placeholder and no rows give the empty-table placeholder, both with unchanged tables; otherwise one placeholder line or one line per row |
| LogseqRender.ConvertTable | src/converters/logseq_converter.py:311-328 | a `Table:` block comes first, followed by the table's lines one level deeper |
| LogseqRender.OutlineHtml | src/converters/logseq_converter.py:229-246 | hidden html gives nothing; otherwise one block line, with the reference in front only when the id is truthy and has none yet, which then records it |
| LogseqRender.RefPrefixedOnce | src/converters/logseq_converter.py:238-243 | an object id's reference is put in front of at most one outline line |
| LogseqRender.ConvertItem | src/converters/logseq_converter.py:134-191 | a truthy object id always ends up in the reference table, and the tables only grow |
| LogseqRender.ConvertOutline | src/converters/logseq_converter.py:220-266 | the walk over an outline keeps the tables valid and only lets them grow |
| LogseqRender.ConvertChildren | src/converters/logseq_converter.py:259-264 | the walk over the children keeps the tables valid and only lets them grow |
| LogseqRender.ConvertItems | src/converters/logseq_converter.py:134-145 | every top-level item with a truthy object id has its reference recorded |
| LogseqRender.TextItemRef | src/converters/logseq_converter.py:140-155 | a text item with an object id carries its reference right after the bullet and records it |
| LogseqRender.OwnIdNeverPrefixed | src/converters/logseq_converter.py:140-143 | an outline element with its own object id never gets the reference in front, because the item walk records the id before the outline looks it up |
| LogseqRender.InheritedIdPrefixed | src/converters/logseq_converter.py:226-241 | an outline element without its own id takes the parent's; when the parent has no reference yet, the line gets it in front and records it |
| ContentItems.ChildSmaller | src/converters/logseq_converter.py:259-264 | every child of an outline is smaller than the outline, so the walk ends |
| ObsidianNaming.CategorizeSection | src/converters/obsidian_converter.py:56-73 | daily exactly when a daily keyword (`diary`, `journal`, `daily`, `2024`, `2025`, `2022`) occurs in the lower-cased name; references when a reference keyword occurs and no daily one; projects when only a project keyword occurs; notes when none does |
| ObsidianNaming.CategoryIgnoresCase | src/converters/obsidian_converter.py:58 | upper-casing a section name does not change its category |
| ObsidianNaming.DailyKeywordWins | src/converters/obsidian_converter.py:60-62 | a name containing any daily keyword is daily, whatever reference or project keywords it also holds |
| ObsidianNaming.HyphenateSpaces | src/converters/obsidian_converter.py:556 | the result holds no whitespace, only characters of the input or hyphens, and a name without whitespace is unchanged |
| ObsidianNaming.SanitizeFilename | src/converters/obsidian_converter.py:545-571 | the result is never empty, holds only word characters and hyphens, has no two hyphens in a row, no `-` or `_` at either end, and no whitespace |
| ObsidianNaming.CleanedStem | src/converters/obsidian_converter.py:561-565 | collapsing hyphen runs and stripping `-` and `_` from a text of word characters and hyphens leaves either nothing or a sanitised name |
| ObsidianNaming.SanitizeFileStem | src/converters/obsidian_converter.py:545-571 | a name that is already sanitised comes back unchanged |
| ObsidianNaming.SanitizeFilenameIdempotent | src/converters/obsidian_converter.py:545-571 | sanitising a sanitised name changes nothing |
| ObsidianNaming.SanitizeKeepsAlnum | src/converters/obsidian_converter.py:555-565 | when the name has an ASCII letter or digit, the result holds exactly the name's ASCII letters and digits, in the same order |
| ObsidianNaming.GenerateImageName | src/converters/obsidian_converter.py:573-588 | the name ends in `.png` after a sanitised stem; the stem is the sanitised alt text when the alt text is meaningful (not empty, `image` or `untitled` in any case), else the sanitised `section-page-count` |
| ObsidianNaming.ImageStemSanitised | src/converters/obsidian_converter.py:581-588 | sanitising a generated image name's stem again gives the same stem |
| ObsidianNaming.NamedAfterAlt | src/converters/obsidian_converter.py:581-582 | with a meaningful alt text, the stem spells exactly the alt text's letters and digits |
| ObsidianNaming.NamedAfterPlace | src/converters/obsidian_converter.py:583-584 | without a meaningful alt text, the stem spells the section's letters and digits, then the page's, then the counter |
| ObsidianNaming.InternalLinkRoundTrip | src/converters/obsidian_converter.py:590-596 | reading a generated link back gives the note path (or the title when there is no note) as target and the title as display text, for titles and paths without `\|` |
| ObsidianNaming.Optional | src/converters/obsidian_converter.py:479-488 | an optional key gives one line when its value is truthy and none otherwise |
| ObsidianNaming.FixedLines | src/converters/obsidian_converter.py:470-476 | five lines: title, date (today), the single `onenote-import` tag, the `section > title` source, and the extraction date |
| ObsidianNaming.OptionalLines | src/converters/obsidian_converter.py:479-488 | one line per truthy optional property, in the order category, last modified, page id, type, page count |
| ObsidianNaming.FrontmatterLines | src/converters/obsidian_converter.py:491-501 | eight lines plus one per truthy optional property, opening with `---`, the title and today's date, and closing with `---` and an empty line |
| ObsidianNaming.GenerateFrontmatter | src/converters/obsidian_converter.py:468-503 | the text opens with `---` and a newline and ends with `---` and a newline |
| ObsidianNaming.FrontmatterSplits | src/converters/obsidian_converter.py:491-503 | splitting the frontmatter at newlines gives back exactly its lines when no field holds a line break |
| ObsidianNaming.Search | src/converters/obsidian_converter.py:607-609 | a search from an offset succeeds exactly when the pattern matches at some later offset |
| ObsidianNaming.IsDateLike | src/converters/obsidian_converter.py:598-610 | true exactly when an ISO date, a slashed date with one- or two-digit fields, a month name, or `diary`/`journal` followed by optional whitespace and four digits occurs anywhere, ignoring case |
| ObsidianNaming.DateLikeIgnoresCase | src/converters/obsidian_converter.py:608 | upper-casing a title does not change whether it is date-like |
| ObsidianNaming.ParsedDateIsDateLike | src/converters/obsidian_converter.py:598-610 | every date the Logseq converter's date parser produces counts as date-like here |
| ObsidianRender.HeadingRoundTrip | src/converters/obsidian_converter.py:437-442 | a line written at an outline level reads back as `min(level + 1, 6)` heading marks (none at level 0) and the text, for text not starting with `#` |
| ObsidianRender.ConvertText | src/converters/obsidian_converter.py:216-236 | no lines exactly when the text is blank; otherwise one line, the converted text under its level's heading marks |
| ObsidianRender.TextHeading | src/converters/obsidian_converter.py:231-236 | a text item's line reads back as its level's heading marks and the converted text |
| ObsidianRender.ConvertList | src/converters/obsidian_converter.py:618-635 | one line per entry, in order, each its prefix (`k+1. ` for ordered lists, `- ` otherwise) followed by the converted entry |
| ObsidianRender.NumberedLine | src/converters/obsidian_converter.py:626 | digits followed by `. ` read back as their decimal value |
| ObsidianRender.ListNumbers | src/converters/obsidian_converter.py:624-628 | the `k`-th line of an ordered list reads back as number `k + 1`; an unordered line carries no number |
| ObsidianRender.EmbedRoundTrip | src/converters/obsidian_converter.py:252 | the `![[name]]` embed reads back as the attachment name |
| ObsidianRender.StoreImage | src/converters/obsidian_converter.py:248-266 | the entry is stored under the callback id and nothing else changes; its name is generated with the dictionary's size as counter, is a sanitised `.png` name, and its link is that name's embed; a dictionary of such entries stays so |
| ObsidianRender.ConvertImage | src/converters/obsidian_converter.py:238-275 | without a callback id, one `Missing image` comment and the dictionary unchanged; with one, the stored image's embed, followed by an italic caption exactly when the alt text is not empty or `image` in any case; the dictionary only grows |
| ObsidianRender.ImageLineNamesEntry | src/converters/obsidian_converter.py:248-266 | the image's first line reads back as the file name kept under its callback id, a generated name whose relative path is `attachments/` and that name |
| ObsidianRender.ConvertImages | src/converters/obsidian_converter.py:336-341 | every embedded image with a callback id ends up in the dictionary; no key is lost and entries stay valid |
| ObsidianRender.WithEmbed | src/converters/obsidian_converter.py:357-362 | the cell text before the image is kept as a prefix |
| ObsidianRender.AddCellImages | src/converters/obsidian_converter.py:353-362 | the cell's text is kept as a prefix of the result, no key is lost and entries stay valid |
| ObsidianRender.CellGainsEmbed | src/converters/obsidian_converter.py:356-362 | an image with a callback id appends its generated embed to the cell, after `<br>` when the cell already has text |
| ObsidianRender.CellKeepsMissing | src/converters/obsidian_converter.py:356-357 | an image without a callback id leaves both the cell text and the dictionary unchanged |
| ObsidianRender.CellText | src/converters/obsidian_converter.py:348-368 | a plain cell is converted and leaves the dictionary alone; a record cell keeps every key and valid entry |
| ObsidianRender.ConvertCells | src/converters/obsidian_converter.py:346-369 | one text per cell; the dictionary keeps its keys and stays valid |
| ObsidianRender.ConvertRows | src/converters/obsidian_converter.py:344-374 | one converted row per row; the dictionary keeps its keys and stays valid |
| ObsidianRender.GridWidth | src/converters/obsidian_converter.py:376-380 | a table with some non-blank cell has a grid at least one column wide |
| ObsidianRender.PipeTable | src/converters/obsidian_converter.py:370-394 | the empty-table comment when no cell has text; otherwise the header row, the `---` separator of the grid's width, then every other row, all written from the padded grid |
| ObsidianRender.GridPipeFree | src/converters/obsidian_converter.py:383-385 | padding adds no pipe to a table whose cells hold none |
| ObsidianRender.SeparatorPipes | src/converters/obsidian_converter.py:393 | the separator line has one more pipe than columns |
| ObsidianRender.GridRowPipes | src/converters/obsidian_converter.py:388-389 | each row line of a pipe-free table has one more pipe than the grid's width |
| ObsidianRender.TableColumns | src/converters/obsidian_converter.py:383-394 | every line of a pipe-free table with text has the same number of pipes, one more than the grid's width |
| ObsidianRender.ConvertEnhancedTable | src/converters/obsidian_converter.py:322-395 | the invalid-structure comment without a structure and the empty-table comment without rows, with the dictionary unchanged; otherwise one comment line or one line per row plus the separator; the dictionary keeps its keys and stays valid |
| ObsidianRender.ConvertSimpleTable | src/converters/obsidian_converter.py:283-320 | the empty-table comment for no rows; otherwise one comment line or one line per row plus the separator |
| ObsidianRender.IndentLines | src/converters/obsidian_converter.py:461 | one line per line, each with two spaces in front unless it is blank |
| ObsidianRender.UndentIndent | src/converters/obsidian_converter.py:459-464 | taking the two spaces off again gives the children's lines back |
| ObsidianRender.ConvertHtmlContent | src/converters/obsidian_converter.py:637-647 | exactly one line, never blank; it is the converted html exactly when the conversion is not blank |
| ObsidianRender.ConvertItem | src/converters/obsidian_converter.py:189-214 | the image dictionary only grows and keeps generated names linked by their embeds, whatever the item |
| ObsidianRender.OutlineHead | src/converters/obsidian_converter.py:429-452 | html content gives its heading line when it is neither blank, bare tags, nor blank once converted, and nothing otherwise; no content gives nothing; the dictionary only grows |
| ObsidianRender.ConvertOutline | src/converters/obsidian_converter.py:420-466 | the dictionary only grows and stays valid over the content and every child |
| ObsidianRender.ConvertChildren | src/converters/obsidian_converter.py:454-464 | the dictionary only grows and stays valid over the remaining children |
| ObsidianRender.ChildrenIndentOnly | src/converters/obsidian_converter.py:455-464 | a heading outline's children are exactly a top-level outline's children with two spaces in front of each non-blank line, and leave the same dictionary |
| ObsidianRender.OutlineHeading | src/converters/obsidian_converter.py:430-442 | the first line of an outline with visible html reads back as a heading of its level's marks with the converted html |
| ObsidianRender.UnknownItemLines | src/converters/obsidian_converter.py:210-214 | an unknown item with content is one string that splits into the `Unknown type` comment and the content |
| OneNoteXml.Tagged | src/extractors/onenote_xml_parser.py:200 | exactly the direct children carrying the `one:` tag, in order |
| OneNoteXml.Attr | src/extractors/onenote_xml_parser.py:286 | a value found is the value of an attribute of that name; nothing is found only when no attribute has that name |
| OneNoteXml.KnownAttrs | src/extractors/onenote_xml_parser.py:90-98 | the dictionary's keys are exactly the element's attribute names that are in the allow-list, each mapped to one of its values |
| OneNoteXml.BlankLinesKeepText | src/extractors/onenote_xml_parser.py:379 | folding blank lines changes only whitespace: the other characters stay, in order |
| Strings.StripNoDoubleSpace | src/extractors/onenote_xml_parser.py:383 | stripping a text without two spaces in a row keeps it so |
| OneNoteXml.CleanCdata | src/extractors/onenote_xml_parser.py:373-383 | empty text gives empty text; otherwise the result has no surrounding whitespace and no two spaces in a row, and holds the input's non-whitespace characters in order |
| OneNoteXml.FindBelow | src/extractors/onenote_xml_parser.py:103 | a descendant found carries the `one:` tag searched for |
| OneNoteXml.PageMetadata | src/extractors/onenote_xml_parser.py:83-110 | the metadata keeps exactly the root's allow-listed attributes, and every other attribute is recorded as `Page.<attr>` |
| OneNoteXml.ParseRoot | src/extractors/onenote_xml_parser.py:27-43 | a root whose tag does not end in `Page` is refused with one error message naming the file and the tag, and only such a root; otherwise the metadata is the root's, and the page name is its `name` attribute, or `Untitled` when it has none |
| OneNoteXml.CellOes | src/extractors/onenote_xml_parser.py:348-359 | the images already collected stay a prefix, and a cell whose images are flagged exactly when it has some stays so |
| OneNoteXml.CellOf | src/extractors/onenote_xml_parser.py:336-361 | a cell's `has_images` is true exactly when its image list is not empty |
| OneNoteXml.CellsInto | src/extractors/onenote_xml_parser.py:323-330 | the table has images exactly when it had or some cell of the row has; the row's cells' images are appended in order |
| OneNoteXml.RowCells | src/extractors/onenote_xml_parser.py:323-325 | every cell of a row has its images flagged exactly when it has some |
| OneNoteXml.AddRow | src/extractors/onenote_xml_parser.py:319-332 | the row is appended and the table's image flag and list still agree with its cells |
| OneNoteXml.RowsOf | src/extractors/onenote_xml_parser.py:319-325 | one row of cells per row element, in order |
| OneNoteXml.TableRows | src/extractors/onenote_xml_parser.py:319-332 | the rows are appended in order and the image flag and list still agree with the cells |
| OneNoteXml.TableOf | src/extractors/onenote_xml_parser.py:303-334 | one row per `Row`; `has_images` holds exactly when some cell has images; `embedded_images` is the cells' images in row and cell order |
| OneNoteXml.TextOf | src/extractors/onenote_xml_parser.py:244-247 | a text child contributes only non-blank cleaned text, stripped and without double spaces |
| OneNoteXml.Texts | src/extractors/onenote_xml_parser.py:241-251 | every text contributed is non-empty |
| OneNoteXml.OeNode | src/extractors/onenote_xml_parser.py:207-280 | a node returned is at the given level, meaningful (content, children or attributes), keeps only allow-listed attributes, and its children sit one level down; a dropped OE has no allow-listed attribute and no image or table child |
| OneNoteXml.ScanChildren | src/extractors/onenote_xml_parser.py:241-269 | an image (a table) was seen exactly when some child is an `Image` (a `Table`); content is set exactly when one was seen, and nested nodes sit one level down |
| OneNoteXml.OeChildren | src/extractors/onenote_xml_parser.py:196-205 | every node returned is at the given level and meaningful, and there are at most as many as children |
| OneNoteXml.AddTextJoined | src/extractors/onenote_xml_parser.py:248-251 | adding one text then the rest gives the same text as joining them all with single spaces |
| OneNoteXml.ScanText | src/extractors/onenote_xml_parser.py:241-251 | the loop's text is the usable texts of the children joined with single spaces, in document order |
| OneNoteXml.TextNode | src/extractors/onenote_xml_parser.py:271-274 | without image or table children, an OE with usable text is kept as a `text` node whose content is those texts joined with single spaces |
| OneNoteXml.ImageOrTableWins | src/extractors/onenote_xml_parser.py:253-262 | an OE with an image or table child is kept with image or table content, whatever its text |
| OneNoteXml.ImagePrefixed | src/extractors/onenote_xml_parser.py:296-299 | every name an image records starts with `Image.` |
| OneNoteXml.OesImagePrefixed | src/extractors/onenote_xml_parser.py:355-357 | every name recorded for a cell's images starts with `Image.` |
| OneNoteXml.CellsPrefixed | src/extractors/onenote_xml_parser.py:323-324 | every name recorded for a row's cells starts with `Image.` |
| OneNoteXml.TablePrefixed | src/extractors/onenote_xml_parser.py:319-324 | every name recorded for a table's rows starts with `Image.` |
| OneNoteXml.OeUnknown | src/extractors/onenote_xml_parser.py:224-234 | each attribute off the allow-list is recorded as `OE.<attr>` and each unrecognised child tag as `OE.<tag>`; every name recorded carries the prefix of the element that recorded it |
| OneNoteXml.ChildrenUnknown | src/extractors/onenote_xml_parser.py:264-269 | each unrecognised child tag from the given child on is recorded as `OE.<tag>`, and every name recorded is prefixed |
| OneNoteXml.OesUnknown | src/extractors/onenote_xml_parser.py:196-205 | every name the nested OEs record is prefixed |
| LegacyMarkdown.ReplaceInvalid | src/converters/markdown_converter.py:364 | same length; each of `<>:"/\\\|?*` becomes `-` in place and every other character is kept |
| LegacyMarkdown.SanitizeFilename | src/converters/markdown_converter.py:361-369 | the name is not empty, at most 50 characters, holds none of `<>:"/\\\|?*`, and neither starts nor ends with a dot or a space |
| LegacyMarkdown.UntitledIsFileName | src/converters/markdown_converter.py:369 | the fallback `untitled` has the shape of a sanitised name |
| LegacyMarkdown.SanitizeFixed | src/converters/markdown_converter.py:361-369 | a name already of that shape is kept as it is |
| LegacyMarkdown.SanitizeIdempotent | src/converters/markdown_converter.py:361-369 | sanitising twice is sanitising once |
| LegacyMarkdown.SanitizeReplaces | src/converters/markdown_converter.py:364-368 | a name of at most 50 characters without dots or spaces at its ends only has its invalid characters turned into `-` |
| LegacyMarkdown.Fit | src/converters/markdown_converter.py:311-313 | exactly `width` cells: the row's own cells in place, then empty ones |
| LegacyMarkdown.TableLines | src/converters/markdown_converter.py:300-315 | three more lines than rows: a lone newline, the header row, the separator of one ` --- ` per header cell, each data row fitted to the header's width, and a closing empty line |
| LegacyMarkdown.ConvertTable | src/converters/markdown_converter.py:295-316 | empty exactly when there are no rows |
| LegacyMarkdown.SeparatorPipes | src/converters/markdown_converter.py:306 | the separator has one more pipe than header cells |
| LegacyMarkdown.TableColumns | src/converters/markdown_converter.py:303-313 | with pipe-free cells and a non-empty header, every line between the opening newline and the closing empty line has one more pipe than header cells, however long its row was |
| LegacyMarkdown.TableSplits | src/converters/markdown_converter.py:300-316 | split at newlines, the table reads back as two empty lines (the lone newline item), then the header, separator and rows, then the closing empty line |
| LegacyMarkdown.CollapseNewlines | src/converters/markdown_converter.py:341 | collapsing newline runs introduces no new character |
| LegacyMarkdown.CleanLines | src/converters/markdown_converter.py:348-355 | every kept line is non-empty and stripped, and holds only characters of the input lines |
| LegacyMarkdown.CleanSource | src/converters/markdown_converter.py:341-345 | no no-break space is left |
| LegacyMarkdown.CleanTextLines | src/converters/markdown_converter.py:338-359 | the cleaned text is empty or is made of non-empty lines, each stripped and without no-break spaces |
| LegacyMarkdown.CleanTextKeepsText | src/converters/markdown_converter.py:338-359 | cleaning changes only whitespace: the other characters stay, in order |
| LegacyMarkdown.NbspLeavesRun | src/converters/markdown_converter.py:341-345 | as written, a no-break space between two spaces leaves three spaces in a row, so the result is not free of double spaces |
| LegacyMarkdown.CleanSourceFixed | src/converters/markdown_converter.py:341-345 | with no-break spaces made plain before space runs are collapsed, no no-break space and no two spaces in a row remain |
| LegacyMarkdown.CleanTextFixed | src/converters/markdown_converter.py:338-359 | the corrected cleanup leaves no two spaces in a row |
| LegacyMarkdown.CleanTextFixedLines | src/converters/markdown_converter.py:348-359 | the corrected cleanup is empty or made of non-empty stripped lines without no-break spaces |
| LegacyMarkdown.CleanTextFixedKeepsText | src/converters/markdown_converter.py:338-359 | the corrected cleanup also changes only whitespace |
| LegacyMarkdown.HeadingLevel | src/converters/markdown_converter.py:286-288 | at most 3, and positive exactly for `h1`, `h2` and `h3` |
| LegacyMarkdown.ConvertContentItem | src/converters/markdown_converter.py:271-293 | a table item renders as its table; any other item is empty exactly when its text is blank, and otherwise ends with a newline |
| LegacyMarkdown.ContentHeading | src/converters/markdown_converter.py:286-288 | an `hN` item opens with `N` `#` marks and a space |
| LegacyMarkdown.ContentKeepsText | src/converters/markdown_converter.py:278-293 | an item's text survives: only its heading marks are added and only whitespace changes |
| LegacyMarkdown.ConvertHtml | src/converters/markdown_converter.py:201-235 | the result has no surrounding whitespace, and empty html gives empty text |
| LegacyMarkdown.LegacyPlain | src/converters/markdown_converter.py:201-235 | text without tags, `From` citations or entities is only stripped |
| LegacyMarkdown.EncodedTagKept | src/converters/markdown_converter.py:230-233 | entities are decoded after tags are removed, so an entity-encoded `<b>x</b>` comes out as that literal tag, not as bold |
| LegacyMarkdown.LegacyHighlight | src/converters/markdown_converter.py:207-212 | a yellow highlight span becomes `==x==` |
| LegacyMarkdown.OwnLines | src/converters/markdown_converter.py:170-191 | at most one own line, indented two spaces per level |
| LegacyMarkdown.ChildLines | src/converters/markdown_converter.py:193-197 | only non-empty child renderings are kept |
| LegacyMarkdown.XmlItemPreorder | src/converters/markdown_converter.py:158-199 | the rendering holds the whole tree's text and nothing else, in document order: an element's line, then each child's rendering in turn |
| LegacyMarkdown.ChildLinesPreorder | src/converters/markdown_converter.py:193-197 | the children's renderings hold the children's text in order |
| LegacyMarkdown.XmlItemOpens | src/converters/markdown_converter.py:171-191 | an element with a line of its own opens its rendering with it, indented two spaces per level |
| LegacyMarkdown.MappedImage | src/converters/markdown_converter.py:186-188 | an image whose callback id the page mapped links to the mapped path |
| LegacyMarkdown.UnmappedImage | src/converters/markdown_converter.py:189-191 | an image whose callback id is missing or unmapped falls back to `CallbackID: <id>` |
| LegacyMarkdown.InlineImages | src/converters/markdown_converter.py:117-119 | at most one image per item, each the image content of some top-level item |
| LegacyMarkdown.ImageFile | src/converters/markdown_converter.py:126-130 | every image file name ends in `.png` |
| LegacyMarkdown.ProcessImages | src/converters/markdown_converter.py:122-145 | the mapping and the dictionary gain exactly the callback ids of the images with one |
| LegacyMarkdown.ProcessKeeps | src/converters/markdown_converter.py:122-145 | the entries of callback ids no remaining image carries are left as they were |
| LegacyMarkdown.ProcessSaves | src/converters/markdown_converter.py:122-145 | a callback id some remaining image carries ends up with the file and record of the last image carrying it |
| LegacyMarkdown.LastCarrier | src/converters/markdown_converter.py:122-124 | no later image carries a callback id missing from the later images' ids |
| LegacyMarkdown.PageImagesSaved | src/converters/markdown_converter.py:99-147 | exactly the images with a callback id get a file, at `assets/<name>.png`, and the dictionary records that path with the page's id |
| ImageFormat.InFirst | src/extractors/image_extractor.py:148-154 | a signature is found in the first `n` bytes exactly when it occurs somewhere in them |
| ImageFormat.Head | src/extractors/image_extractor.py:148 | the first `n` bytes, or all of them when there are fewer |
| ImageFormat.Occurs | src/extractors/image_extractor.py:148-154 | true exactly when the signature occurs at the given offset or later |
| ImageFormat.Extension | src/extractors/image_extractor.py:138-157 | each of the seven answers is three or four lower-case letters |
| ImageFormat.DetectFormat | src/extractors/image_extractor.py:132-149 | fewer than 8 bytes give `bin`; otherwise the first signature in the order jpg, png, gif, bmp, ico, webp (RIFF with WEBP in the first 12 bytes) decides |
| ImageFormat.DetectBin | src/extractors/image_extractor.py:132-157 | any answer other than `bin` has its evidence at the start or in the first 20 bytes; `bin` is the answer exactly when the data is short or nothing in it speaks for another format |
| ImageFormat.PngSignature | src/extractors/image_extractor.py:140-141 | data opening with the 8-byte PNG signature is `png` |
| ImageFormat.SafeCallback | src/extractors/image_extractor.py:114 | at most 20 characters; each character outside `[\w-]` becomes `_` in place, so every result character is a word character or `-`; a short safe id is kept as it is |
| ImageFormat.SavedName | src/extractors/image_extractor.py:104-115 | empty data gives no file; any other data gets a name |
| ImageFormat.ExtensionAfterDot | src/extractors/image_extractor.py:115 | the text after the last dot of `front.ext` is `ext` when `ext` has no dot |
| ImageFormat.SavedNameExtension | src/extractors/image_extractor.py:109-115 | the saved file's extension reads back as the detected format's |
| ImageFormat.Infos | src/extractors/image_extractor.py:177-185 | at most one entry per image, each tagged with the page id and carrying a non-empty callback id |
| ImageFormat.PageImagesInfo | src/extractors/image_extractor.py:159-196 | nothing without a page id; otherwise every entry carries that non-empty page id and a non-empty callback id |
| ImageFormat.InfosIds | src/extractors/image_extractor.py:177-185 | the listed ids are exactly the callback ids of the images that have one |
| ImageFormat.IdsConcat | src/extractors/image_extractor.py:177-196 | the ids of two lists put together are the ids of each |
| ImageFormat.InfoMatchesConverter | src/extractors/image_extractor.py:172-196 | with a page id, the images the extractor asks for are exactly those the markdown converter gave a file name |
| PageOrder.KeyOf | src/pipeline_base.py:114-120 | a name gets a numeric key exactly when it opens with one or more digits followed by `_` |
| PageOrder.KeyTotal | src/pipeline_base.py:114-122 | any two keys are comparable |
| PageOrder.KeyTrans | src/pipeline_base.py:114-122 | the key order is transitive |
| PageOrder.Insert | src/pipeline_base.py:122 | inserting a page gives a permutation of the page and the list, one longer |
| PageOrder.SortPages | src/pipeline_base.py:99-122 | the result is a permutation of the input |
| PageOrder.InsertSorted | src/pipeline_base.py:122 | inserting into a sorted list keeps it sorted by key |
| PageOrder.SortSorted | src/pipeline_base.py:122 | the result is sorted by key |
| PageOrder.InsertWithKey | src/pipeline_base.py:122 | insertion passes only pages of other keys, so pages of one key keep their order |
| PageOrder.SortStable | src/pipeline_base.py:122 | the sort is stable: pages with equal keys keep their input order |
| PageOrder.PrefixedFirst | src/pipeline_base.py:114-120 | every prefixed page comes before every unprefixed one, and prefixed pages are in the order of their numbers |
| PageOrder.NumericPrefix | src/pipeline_base.py:116-118 | `2_` and `10_` prefixes have keys 2 and 10, so they compare as numbers |
| PageOrder.InSection | src/pipeline_base.py:88-90 | every page kept sits in the given folder |
| PageOrder.CollectKey | src/pipeline_base.py:88-90 | after the loop a folder has a list exactly when it had one or some remaining page sits in it; the list is what it held, then that folder's remaining pages in order |
| PageOrder.CollectAll | src/pipeline_base.py:86-90 | from no lists, each folder of a page gets a list holding exactly its pages in order, and no other folder gets one |
| PageOrder.GroupPartition | src/pipeline_base.py:75-96 | one group per folder of the input, holding that folder's pages, sorted |
| PageOrder.GroupMembership | src/pipeline_base.py:75-96 | a page is in a folder's group exactly when it is one of the input's pages in that folder |
| PageOrder.InSectionMembers | src/pipeline_base.py:88-90 | a page is among a folder's pages exactly when it is an input page in that folder |

## Left out

- File and console I/O: every `open`, `mkdir`, `print` and log call, `save_image_dictionary`, the COM calls of the image extractor, base64 decoding and the binary write. The renderers return their lines and tables instead of writing them.
- The command-line tool, the two pipelines' orchestration, argument parsing, logging set-up and directory discovery, which are process and file-system work.
- `create_main_dashboard` and `_create_section_dashboard`: fixed templates written to files.
- `ET.parse` and the `Invalid XML` error branch of `parse_page_xml`. The model starts from an element tree that is already parsed. Of `parse_page_xml` only the root check, the page name and the metadata are modelled. Style definitions, the page title, the outline metadata with its `Outline.<attr>` names, and the flat image list are not part of this model.
- `_parse_datetime` (`fromisoformat`): date attributes are kept as written, which is what the source does when parsing fails.
- OneNoteXml.PageMetadata: date-valued attributes are not normalised by `_parse_datetime`, because that is library date parsing.
- `datetime.now()` in the frontmatter is the parameter `today`.
- `hashlib.md5` in block references and image names is a deterministic stand-in with the same shape (32 lower-case hex digits), not the real digest.
- Regular expressions: `\w` and `\d` are ASCII, and case-insensitive matching and `str.lower` fold ASCII letters only. Python's `str` patterns also accept other Unicode letters and digits.
- `html.unescape` is limited to a small entity map (`&amp;`, `&lt;`, `&gt;`, `&quot;`, `&#39;`, `&apos;`, `&nbsp;`) instead of the full HTML5 table.
- `_try_parse_date_to_link` uses `strptime` month abbreviations. Only its ordinal-suffix rule is modelled, so the highlighted-date linking inside `_html_to_logseq_markdown` is not part of this model.
- `_reverse_sanitize_section_name`: a lossy guess with no guarantee to state.
- `_detect_content_type` and `_extract_date_from_content`: they search `json.dumps` output, whose layout belongs to the library.
- `MarkdownConverter._extract_page_title` (it refers to an undefined `page_num`) and `_convert_page`, which writes a file.
- LogseqEscape.ExtractCodeBlocks: the regions are not sorted by start. Only membership in some region is ever used, so the order does not matter.
- Dictionaries are maps, so their insertion order is not modelled. The rendered lines never depend on it.
- LegacyMarkdown.ConvertTable: a short row is padded in a copy. The source pads the caller's row in place with `row.append("")` (src/converters/markdown_converter.py:311-312), so the parsed item changes as a side effect. Values are immutable here, so that aliasing is not modelled.
- PageOrder.SortPages: Python's stable `sorted` is modelled as a stable insertion sort. Only the result is the same, not the algorithm.
- BracketEscape.RewriteEscapes: the two examples in the function's docstring are covered by the general iff about rewritten groups, not by concrete lemmas.

## Findings

| source | as written | input that shows it | evidently intended | confidence | as-written member | corrected member |
|---|---|---|---|---|---|---|
| src/converters/markdown_utils.py:72, 87-98 | the code regions are computed once on the original text, but the `::` and `((` passes test offsets in the text the earlier passes already lengthened | "{{}}`::`": after the first pass the inline code has moved right, so the `::` inside it is escaped | text inside code regions is never escaped | medium, not executed | LogseqEscape.StaleRegionsCounterexample | LogseqEscape.FixedKeepsCodeText |
| src/converters/logseq_converter.py:857 | a part that does not fit is cut to `part[:max(1, max_length - current_len - 1)]`, and the `max(1, …)` floor keeps one character even when no room is left, after a `-` separator | "abcdefg xyz" with `max_length` 8 gives the nine characters `abcdefg-x` | the short name is at most `max_length` characters | medium, not executed | LogseqImages.ShortenOverflow | LogseqImages.ShortenFixedLength |
| src/converters/markdown_converter.py:341-345 | runs of spaces are collapsed before no-break spaces are made plain | "a \xa0 b" (a space, a no-break space, a space) gives `a   b` with three spaces | cleaned text has no runs of spaces | low, not executed | LegacyMarkdown.NbspLeavesRun | LegacyMarkdown.CleanTextFixed |

The renderers use the definitions as written. `LogseqMarkdown` escapes with `EscapeLogseqSyntax`, Logseq image names are built with `ShortenName`, and `ConvertContentItem` cleans with `CleanText`. The corrected definitions `EscapeLogseqSyntaxFixed`, `ShortenNameFixed` and `CleanTextFixed` stand beside them with their intended properties proved.
