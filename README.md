# PddTrainer content pipeline in Dafny

PddTrainer is a traffic-rules exam trainer. Its content comes from a pipeline of three programs,
and this project models the logic of all three:

* **The ticket scraper** (`PddTrainer.Parser/Program.cs`) walks 40 ticket pages. On each page it:
  * picks the question headers (`<b>` elements naming both a ticket and a question);
  * cuts the page into one span of nodes per header (`GetNodesBetween`);
  * reads the question text, the answer options and the explanation out of each span;
  * looks for the question's picture in four tiers (`FindQuestionImage` / `ChooseBest`) and names
    the downloaded file `ticket{N}_q{i+1}{ext}`;
  * keeps every question that is not completely empty.
* **The question↔theme matcher** (`PddTrainer.Api/QuestionThemeMatcher.cs`):
  * normalises question texts into keys (`Normalize`);
  * indexes the questions that have no theme by key;
  * downloads each theme's page and decodes it with an encoding fallback (`LoadHtmlAsync`);
  * parses the question titles on the page (`ParseQuestionTitles`);
  * gives the theme to the unthemed questions whose key matches a title, and counts the titles
    found (`linked`) and not found (`notFound`).
* **The theme importer** (`PddTrainer.ThemeImport/Program.cs`):
  * decodes the theme list page, first with the charset the server declares and otherwise with
    `TryDecodeWithFallbacks`;
  * reads one theme per link, cutting the trailing "(N вопросов)" count off each title.

The foreign libraries the code relies on become parameters of the model:
* the Unicode character tables: `Text.CharClasses`, whose `Valid` lists the few facts the proofs use;
* HtmlAgilityPack's tree: `Dom.Node`, where `id` stands for reference identity;
* the entity decoders `HtmlEntity.DeEntitize` and `WebUtility.HtmlDecode`: functions `string -> string`;
* the text encodings: partial decoders `seq<byte> -> Option<string>`, where None means "threw";
* HTTP downloads and XPath selections: inputs;
* the database table: `QuestionIndex.QuestionStore`, a class over a map from id to row.

Each loop that builds a list, a dictionary or a table is a method with loop invariants. The
search loops (`ChooseBest`'s `foreach`, the decoder loops' early returns, the `FirstOrDefault`
queries) are first-match functions over sequences (`Search.FirstIndex`); the decoder loops are
also methods. Each method is proved equal to a function, and the properties are proved about
those functions:
* `ParserSpan.NodesBetween`, `ParserContent.Answers`, `TicketParser.TicketOf`;
* `QuestionIndex.Index`, `ThemeMatcher.Run`;
* `PageDecoding.FirstAccepted`, `ThemeImport.ThemesOf`.

Where the code behaves differently from what a reader of its comments or of its design would
expect, the model follows the code:
* The explanation is the hint node's raw `InnerText`, neither trimmed nor entity-decoded.
* `Normalize` is not idempotent: it collapses white space before it strips punctuation, so
  `"a - b"` becomes `"a  b"`, and a second pass gives `"a b"` (`Normalizer.NormalizeNotIdempotent`).
  It is stable only on keys without adjacent spaces.
* The importer's titles are not entity-decoded.
* A ticket page without headers is skipped: it is neither collected nor posted.
* Pictures are numbered by the question's 1-based position among all headers, including questions
  that are later dropped as empty.
* Image tier one looks at every image under the header's parent, including images before the header.
* Tier three enumerates the images of one sibling eight times, which adds nothing.
* Tier four folds only the capital `К` before looking for "картин".
* `ChooseBest` does not rank its three markers: the first image with any one of them wins.

## Model

| member | source | states |
|---|---|---|
| `ParserSpan.GetNodesBetween` | PddTrainer/PddTrainer.Parser/Program.cs:108-131 | The list is the first pass's nodes followed by the second pass's (`NodesBetween`) |
| `ParserSpan.CollectAfterHeader` | PddTrainer/PddTrainer.Parser/Program.cs:110-124 | The `afterHeader` loop yields exactly the element children after the first child that is or contains the header, in order; none if no child holds it |
| `ParserSpan.CollectSiblings` | PddTrainer/PddTrainer.Parser/Program.cs:126-128 | The `NextSibling` loop appends exactly the element siblings of the parent that come before the next header's parent, in order |
| `ParserSpan.CollectedNodes` | PddTrainer/PddTrainer.Parser/Program.cs:108-131 | A node is collected iff it is an element and it is a child after the header's child or a following sibling before the stop |
| `ParserSpan.HeaderAndEarlierChildrenExcluded` | PddTrainer/PddTrainer.Parser/Program.cs:114-121 | With distinct node identities, the child holding the header and every child before it are never collected |
| `ParserSpan.SiblingPassStopsBeforeEnd` | PddTrainer/PddTrainer.Parser/Program.cs:126-128 | The sibling pass never includes the next header's parent; with no next header it takes every element sibling |
| `ParserSpan.FirstPassIgnoresEnd` | PddTrainer/PddTrainer.Parser/Program.cs:114-124 | Two calls that differ only in the next header agree on the whole first-pass part of the result |
| `ParserImages.ChooseBest` | PddTrainer/PddTrainer.Parser/Program.cs:138-152 | None only for no images; otherwise a member of the input: the first image with any marker, else the first image |
| `ParserImages.NextSiblingImageIsFirst` | PddTrainer/PddTrainer.Parser/Program.cs:158 | Tier three, repeated eight times, is the first image under the parent's next sibling, or none |
| `ParserImages.FindQuestionImage` | PddTrainer/PddTrainer.Parser/Program.cs:154-159 | None iff all four tiers are empty; tier one decides whenever the parent holds an image; the result is always an `img` element |
| `ParserImages.ImagesUnderAreImages` | PddTrainer/PddTrainer.Parser/Program.cs:157 | Tier two only ever offers `img` elements |
| `ParserImages.TrimDotsAndSlashes` | PddTrainer/PddTrainer.Parser/Program.cs:167 | The result is a suffix of the input that does not start with `.` or `/`, and only dots and slashes were removed |
| `ParserImages.SavedPathEndsWithName` | PddTrainer/PddTrainer.Parser/Program.cs:175-180 | The returned path has no backslash and ends with the file name, its backslashes also turned into slashes |
| `ParserImages.DownloadImage` | PddTrainer/PddTrainer.Parser/Program.cs:165-186 | Null iff the download fails; otherwise a path without backslashes ending in `ticket{N}_q{M}{ext or .jpg}` |
| `ParserImages.ImageFileNameInjective` | PddTrainer/PddTrainer.Parser/Program.cs:175 | Different (ticket, question) pairs never get the same file name, whatever their extensions |
| `ParserContent.NumberingPrefix` | PddTrainer/PddTrainer.Parser/Program.cs:213-215 | A match removes at least a digit and the dot, never more than the text, and ends on the dot or on white space |
| `ParserContent.NumberingPrefixIsMatch` | PddTrainer/PddTrainer.Parser/Program.cs:213-215 | The length removed from an option is a match of `^\s*\d+\.\s*` |
| `ParserContent.NumberingPrefixFindsMatch` | PddTrainer/PddTrainer.Parser/Program.cs:213 | Whenever the pattern matches, the option is not skipped |
| `ParserContent.NumberingPrefixIsUnique` | PddTrainer/PddTrainer.Parser/Program.cs:213-215 | The pattern has only one match, and it is the one removed |
| `ParserContent.StartsNumberedIsMatch` | PddTrainer/PddTrainer.Parser/Program.cs:199 | The candidate test agrees with `^\d+\.\s` in both directions |
| `ParserContent.QuestionTextSource` | PddTrainer/PddTrainer.Parser/Program.cs:192-201 | `ExtractQuestionText` always returns the trimmed, entity-decoded text of the header or of a node of the span |
| `ParserContent.QuestionTextFromBoldDiv` | PddTrainer/PddTrainer.Parser/Program.cs:194-195 | The first bold `div` gives the question text, trimmed then decoded, whatever else the span holds |
| `ParserContent.QuestionTextFromCandidate` | PddTrainer/PddTrainer.Parser/Program.cs:197-200 | Without a bold `div`, the first element whose trimmed text is longer than 10 and not numbered gives the text |
| `ParserContent.QuestionTextFromHeader` | PddTrainer/PddTrainer.Parser/Program.cs:200 | With neither, the header's trimmed, decoded text is the question text |
| `ParserContent.AnswerOf` | PddTrainer/PddTrainer.Parser/Program.cs:212-217 | An option exists iff the trimmed text is numbered; its text is the decoded rest after the numbering; it is correct iff the style has `forestgreen` or a `<b>` lies inside |
| `ParserContent.ExtractAnswerOptions` | PddTrainer/PddTrainer.Parser/Program.cs:206-220 | The list is the options of the numbered answer `div`s, in node order (`Answers`) |
| `ParserContent.AnswersAppend` | PddTrainer/PddTrainer.Parser/Program.cs:209-218 | Order is preserved: the options of two spans in sequence are the options of each, concatenated |
| `ParserContent.AnswersCount` | PddTrainer/PddTrainer.Parser/Program.cs:209-218 | Exactly one option per answer `div` that yields one |
| `ParserContent.AnswersFromDivs` | PddTrainer/PddTrainer.Parser/Program.cs:209-217 | Every option comes from an answer `div` of the span |
| `ParserContent.Explanation` | PddTrainer/PddTrainer.Parser/Program.cs:75 | Null iff no node has an id starting with `idDivHint` (ignoring case) |
| `ParserContent.ExplanationFromHint` | PddTrainer/PddTrainer.Parser/Program.cs:75 | When a hint node exists, the explanation is the raw (not trimmed, not decoded) inner text of the first one |
| `TicketParser.Headers` | PddTrainer/PddTrainer.Parser/Program.cs:49-53 | A node is selected iff it is a `<b>` element of the page whose text is not blank and contains both "Билет" and "Вопрос"; the selection keeps document order |
| `TicketParser.QuestionFromItsSpan` | PddTrainer/PddTrainer.Parser/Program.cs:64-80 | The `i`-th question is read from the `i`-th header and its own span only: text from that header or a span node, options from the span's answer `div`s, the explanation from a hint node of the span, the picture named `ticket{N}_q{i+1}` |
| `TicketParser.ReadQuestion` | PddTrainer/PddTrainer.Parser/Program.cs:66-80 | The question read for header `i` is the `i`-th of `AllQuestions`: text, options and explanation from the span up to the next header, the picture saved under number `i + 1` |
| `TicketParser.KeptQuestions` | PddTrainer/PddTrainer.Parser/Program.cs:64-85 | The header loop stores exactly the questions that pass the keep test, in header order |
| `TicketParser.ExtractTicket` | PddTrainer/PddTrainer.Parser/Program.cs:46-85 | A page without headers yields no ticket; otherwise a ticket titled with its number, holding the kept questions in header order (`TicketOf`) |
| `TicketParser.KeptQuestionsAreNonEmpty` | PddTrainer/PddTrainer.Parser/Program.cs:83-84 | A question is stored iff its text is non-blank, or it has an option, or a non-blank explanation, or a non-blank image path |
| `TicketParser.QuestionImagePath` | PddTrainer/PddTrainer.Parser/Program.cs:78-80 | The `i`-th header's picture is saved as `ticket{N}_q{i+1}` plus an extension, with no backslash |
| `TicketParser.ScrapeTickets` | PddTrainer/PddTrainer.Parser/Program.cs:37-94 | The collected tickets are those of the pages that have headers, in page order |
| `TicketParser.TicketTitlesDistinct` | PddTrainer/PddTrainer.Parser/Program.cs:46 | No two collected tickets share a title |
| `TicketParser.TicketOfTitle` | PddTrainer/PddTrainer.Parser/Program.cs:46 | A page's ticket carries that page's number in its title |
| `TicketParser.TicketTitleInjective` | PddTrainer/PddTrainer.Parser/Program.cs:46 | Different ticket numbers give different titles |
| `Normalizer.Normalize` | PddTrainer/PddTrainer.Api/QuestionThemeMatcher.cs:143-156 | Empty input gives `""`; otherwise the key is never longer than the HTML-decoded text |
| `Normalizer.CollapseSpace` | PddTrainer/PddTrainer.Api/QuestionThemeMatcher.cs:152 | Every white space left is a plain space, and no new character appears |
| `Normalizer.StripPunctuation` | PddTrainer/PddTrainer.Api/QuestionThemeMatcher.cs:153 | Only letters, decimal digits and white space are left, all from the input |
| `Normalizer.FoldedHasNoYo` | PddTrainer/PddTrainer.Api/QuestionThemeMatcher.cs:149-150 | No `ё` or `Ё` is left after folding |
| `Normalizer.NormalizeShape` | PddTrainer/PddTrainer.Api/QuestionThemeMatcher.cs:143-156 | Empty input gives `""`; a key has no `ё`/`Ё`, only letters, digits and plain spaces, nothing to trim, and is lower-case |
| `Normalizer.NormalizeStableWithoutDoubleSpaces` | PddTrainer/PddTrainer.Api/QuestionThemeMatcher.cs:148-155 | A key without two adjacent spaces is its own key (when HTML decoding leaves text without `&` alone) |
| `Normalizer.KeyIsFixedPoint` | PddTrainer/PddTrainer.Api/QuestionThemeMatcher.cs:148-155 | Every step of `Normalize` leaves a text of the key shape without adjacent spaces unchanged |
| `Normalizer.DecodeAndFoldFixed` | PddTrainer/PddTrainer.Api/QuestionThemeMatcher.cs:148-150 | Text without `&`, `ё` or `Ё` survives HTML decoding and folding |
| `Normalizer.CleaningFixed` | PddTrainer/PddTrainer.Api/QuestionThemeMatcher.cs:152-155 | Trimmed text of word characters with single plain spaces survives collapsing, stripping and trimming |
| `Normalizer.LowerFixed` | PddTrainer/PddTrainer.Api/QuestionThemeMatcher.cs:155 | Text that is its own lower case survives lower-casing |
| `Normalizer.CollapseSpaceUnchanged` | PddTrainer/PddTrainer.Api/QuestionThemeMatcher.cs:152 | Text with only single plain spaces has nothing to collapse |
| `Normalizer.StripPunctuationUnchanged` | PddTrainer/PddTrainer.Api/QuestionThemeMatcher.cs:153 | Text of letters, digits and white space has nothing to strip |
| `Normalizer.NormalizeNotIdempotent` | PddTrainer/PddTrainer.Api/QuestionThemeMatcher.cs:152-153 | `"a - b"` normalises to `"a  b"`, which normalises again to `"a b"` |
| `PageDecoding.FirstAccepted` | PddTrainer/PddTrainer.Api/QuestionThemeMatcher.cs:108-122 | Whatever the search returns passes the acceptance test |
| `PageDecoding.TryDecoders` | PddTrainer/PddTrainer.Api/QuestionThemeMatcher.cs:108-122 | The early-returning loop returns the first decoding that does not throw and is accepted (`FirstAccepted`) |
| `PageDecoding.FirstAcceptedAt` | PddTrainer/PddTrainer.ThemeImport/Program.cs:131-145 | An accepted decoding wins when no earlier decoder gives one |
| `PageDecoding.FirstAcceptedNone` | PddTrainer/PddTrainer.ThemeImport/Program.cs:131-145 | The search fails iff every decoder throws or is rejected |
| `PageDecoding.LoadHtml` | PddTrainer/PddTrainer.Api/QuestionThemeMatcher.cs:108-124 | The decoding part of `LoadHtmlAsync` computes `PageHtml`: the first decoding mentioning `<html`, else UTF-8 |
| `PageDecoding.PageHtmlChoice` | PddTrainer/PddTrainer.Api/QuestionThemeMatcher.cs:108-124 | The page is the first of windows-1251, UTF-8, windows-1252 that decodes and mentions `<html` (ignoring case); if none does, the UTF-8 decoding |
| `PageDecoding.PageHtmlPrefersWindows1251` | PddTrainer/PddTrainer.Api/QuestionThemeMatcher.cs:108-116 | A windows-1251 text mentioning `<html` is taken |
| `PageDecoding.PageHtmlThenUtf8` | PddTrainer/PddTrainer.Api/QuestionThemeMatcher.cs:108-116 | When windows-1251 fails or lacks the tag and UTF-8 has it, the UTF-8 text is taken |
| `PageDecoding.TryDecodeWithFallbacks` | PddTrainer/PddTrainer.ThemeImport/Program.cs:126-157 | Returns the first plausible decoding, else UTF-8, else the system default, and never fails (`FallbackText`) |
| `PageDecoding.FallbackTextPlausible` | PddTrainer/PddTrainer.ThemeImport/Program.cs:129-156 | The text is plausible (not blank; `<html` or a U+0400..U+04FF character) unless no candidate is, and then it is UTF-8 or the default |
| `PageDecoding.FallbackTextPrefersWindows1251` | PddTrainer/PddTrainer.ThemeImport/Program.cs:129-139 | A plausible windows-1251 text is taken |
| `PageDecoding.ThemesPageText` | PddTrainer/PddTrainer.ThemeImport/Program.cs:54-70 | The importer's page text is the declared charset's decoding, a plausible text, or the plain UTF-8 (else system default) decoding |
| `PageDecoding.ThemesPageTextSource` | PddTrainer/PddTrainer.ThemeImport/Program.cs:54-70 | A non-blank declared charset that decodes wins with no plausibility test; otherwise the fallback's text is used |
| `QuestionIndex.Assigned` | PddTrainer/PddTrainer.Api/QuestionThemeMatcher.cs:90-92 | The bulk update adds and removes no row |
| `QuestionIndex.AssignedOnlyFillsNull` | PddTrainer/PddTrainer.Api/QuestionThemeMatcher.cs:90-92 | A row's theme changes iff it is listed and has none, and then it becomes the theme; texts never change |
| `QuestionIndex.QuestionStore.Unthemed` | PddTrainer/PddTrainer.Api/QuestionThemeMatcher.cs:36-42 | Lists every row without a theme exactly once, with its text, and nothing else |
| `QuestionIndex.QuestionStore.AssignTheme` | PddTrainer/PddTrainer.Api/QuestionThemeMatcher.cs:90-92 | The store becomes `Assigned(old rows, ids, theme)` |
| `QuestionIndex.BuildIndex` | PddTrainer/PddTrainer.Api/QuestionThemeMatcher.cs:45-57 | The dictionary loop computes `Index`: each id appended under its key, lists created on first use |
| `QuestionIndex.IndexIsGrouping` | PddTrainer/PddTrainer.Api/QuestionThemeMatcher.cs:45-57 | A key is present iff some question has it, and its list holds those questions' ids in load order |
| `QuestionIndex.IdsUnderMembers` | PddTrainer/PddTrainer.Api/QuestionThemeMatcher.cs:47-57 | An id is under a key iff some loaded question has that id and that key |
| `QuestionIndex.IdsUnderOnce` | PddTrainer/PddTrainer.Api/QuestionThemeMatcher.cs:47-57 | Each loaded id occurs exactly once in the list under its own key |
| `QuestionIndex.IdsUnderOwnKeyOnly` | PddTrainer/PddTrainer.Api/QuestionThemeMatcher.cs:47-57 | No id occurs under another key |
| `QuestionIndex.IndexAgrees` | PddTrainer/PddTrainer.Api/QuestionThemeMatcher.cs:36-57 | Whatever the load order, the keys are the keys of the unthemed rows and each list holds exactly the unthemed rows with that key |
| `ThemeMatcher.ParseQuestionTitles` | PddTrainer/PddTrainer.Api/QuestionThemeMatcher.cs:127-141 | A null selection gives no titles, and each selected node gives at most one |
| `ThemeMatcher.ParseQuestionTitlesMembers` | PddTrainer/PddTrainer.Api/QuestionThemeMatcher.cs:127-141 | No nodes gives no titles; each title is non-empty and trimmed; a text is a title iff it is the decoded, trimmed text of a node |
| `ThemeMatcher.LoadHtmlAsync` | PddTrainer/PddTrainer.Api/QuestionThemeMatcher.cs:104-125 | A failed download fails; otherwise the page text is the decoder fallback's |
| `ThemeMatcher.LoadTitles` | PddTrainer/PddTrainer.Api/QuestionThemeMatcher.cs:66-77 | The titles of a theme page, or failure when loading it throws |
| `ThemeMatcher.MatchAsync` | PddTrainer/PddTrainer.Api/QuestionThemeMatcher.cs:28-102 | The new store and counters are those of `Run`: themes with a URL, each title of each page that loads, looked up in the index of the old unthemed rows |
| `ThemeMatcher.LoadQuestionMap` | PddTrainer/PddTrainer.Api/QuestionThemeMatcher.cs:36-57 | The index built from the unthemed questions agrees with `KeyIndex` of the store |
| `ThemeMatcher.LinkThemes` | PddTrainer/PddTrainer.Api/QuestionThemeMatcher.cs:62-98 | The theme loop performs the lookups of every theme in turn; a theme whose page throws is skipped |
| `ThemeMatcher.LinkTitles` | PddTrainer/PddTrainer.Api/QuestionThemeMatcher.cs:79-95 | The title loop performs one lookup per title, in title order |
| `ThemeMatcher.LinkTitle` | PddTrainer/PddTrainer.Api/QuestionThemeMatcher.cs:81-94 | A miss adds one to `notFound` and leaves the store alone; a hit adds one to `linked` and runs the bulk update |
| `ThemeMatcher.RunCounts` | PddTrainer/PddTrainer.Api/QuestionThemeMatcher.cs:79-95 | `linked` is the number of titles whose key is indexed, however many rows each changes; `linked + notFound` is the number of titles |
| `ThemeMatcher.RunThemeOf` | PddTrainer/PddTrainer.Api/QuestionThemeMatcher.cs:62-98 | A row keeps its text; a themed row keeps its theme; an unthemed row gets the theme of the first title whose key lists it, or none |
| `ThemeMatcher.RunKeys` | PddTrainer/PddTrainer.Api/QuestionThemeMatcher.cs:90-92 | The matcher adds and removes no question |
| `ThemeMatcher.ThemedRowsKeepTheirTheme` | PddTrainer/PddTrainer.Api/QuestionThemeMatcher.cs:90-92 | A question that already has a theme is left unchanged |
| `ThemeMatcher.FailedFetchContributesNothing` | PddTrainer/PddTrainer.Api/QuestionThemeMatcher.cs:66-75 | A theme whose page throws adds no lookup; later themes are looked up as if it were absent |
| `ThemeMatcher.QueriesCount` | PddTrainer/PddTrainer.Api/QuestionThemeMatcher.cs:62-98 | There is one lookup per title parsed from the pages that load |
| `ThemeMatcher.RunWithoutHits` | PddTrainer/PddTrainer.Api/QuestionThemeMatcher.cs:82-87 | Lookups that all miss change no row and count only as not found |
| `ThemeMatcher.SecondRunLinksNothing` | PddTrainer/PddTrainer.Api/QuestionThemeMatcher.cs:28-102 | Run again over the same titles, the matcher links nothing and changes nothing |
| `ThemeMatcher.UnlinkedRowMatchesNoTitle` | PddTrainer/PddTrainer.Api/QuestionThemeMatcher.cs:79-94 | A question still without a theme after a run has a key that none of the run's titles has |
| `ThemeImport.CleanTitle` | PddTrainer/PddTrainer.ThemeImport/Program.cs:85-90 | The cleaned title is a prefix of the trimmed link text |
| `ThemeImport.CleanTitleShape` | PddTrainer/PddTrainer.ThemeImport/Program.cs:85-90 | The title is a trimmed prefix of the trimmed text, empty iff that text is; with no `(` or one at index 0 it is the whole trimmed text; otherwise it is shorter and has no `(` |
| `ThemeImport.CutTitleShape` | PddTrainer/PddTrainer.ThemeImport/Program.cs:88-90 | Cutting before a `(` past index 0 and trimming gives a non-empty, shorter, trimmed prefix without `(` |
| `ThemeImport.ExtractThemes` | PddTrainer/PddTrainer.ThemeImport/Program.cs:79-99 | One theme per selected link, in document order; no selection gives an empty list (`ThemesOf`) |
| `ThemeImport.ThemesOfLinks` | PddTrainer/PddTrainer.ThemeImport/Program.cs:83-98 | The `i`-th theme has the `i`-th link's cleaned title, empty iff its text is blank, and its trimmed `href`, unresolved |
| `ThemeImport.DecodeThemesPage` | PddTrainer/PddTrainer.ThemeImport/Program.cs:52-70 | The page text is the declared charset's when it is non-blank and decodes, else the fallback's |
| `ThemeImport.ImportThemes` | PddTrainer/PddTrainer.ThemeImport/Program.cs:26-99 | A failed download imports nothing; otherwise the themes of the decoded page |

## Left out

- Networking and output are left out: HTTP downloads, the HEAD request for the charset, image
  downloads, file writes, JSON posts to the API, `Task.Delay`, logging, console output and
  `Console.ReadLine`. Download results and the declared charset are inputs.
- HtmlAgilityPack's parsing and XPath evaluation are left out. The model takes the parsed tree,
  and the matcher's and importer's selections are input functions. The scraper's `//b` is
  modelled as a filter of the tree's nodes in document order.
- `Uri` resolution and escaping and `Path.GetExtension` are left out: the extension of the
  resolved URL is a parameter of the image store.
- `ParserImages.DownloadImage` is total: it yields a path or null. When the retry
  `new Uri(baseUri, Uri.EscapeUriString(rawSrc))` in the `catch` of the first resolution throws
  as well, the exception leaves `DownloadImageAsync` and ends the scraper; that failure is not
  modelled.
- The `Encoding` implementations are abstract decoders. `Encoding.Default` never fails.
- The Unicode tables (`IsLetter`, `\d`, `\s`, `ToLowerInvariant`, upper-casing) are abstract.
  `char.IsWhiteSpace` and the regex class `\s` are the same table, and `ToLowerInvariant` maps
  one character to one.
- A character of the model is a Unicode scalar value, not a UTF-16 code unit. Text that .NET
  holds as surrogate pairs (characters outside the Basic Multilingual Plane) is not modelled:
  such a character counts as one in the model and two in .NET, which matters for the length test
  `t.Length > 10` of the question text and for how `[^\p{L}\p{Nd}\s]` treats surrogate halves.
- The culture-sensitive `ToLower()` calls of the scraper (the `bold` class test, the `padding`
  style test and the `forestgreen` test) are modelled with the same lower-casing table as
  `ToLowerInvariant`; a culture whose lower-casing differs is not modelled.
- `HtmlEntity.DeEntitize` and `WebUtility.HtmlDecode` are parameters. The only fact used is that
  `HtmlDecode` leaves a text without `&` unchanged.
- `ParserImages.ChooseBest`, `ParserContent.IsHint` and `PageDecoding.MentionsHtml`: every
  `StringComparison.OrdinalIgnoreCase` comparison (`Text.ContainsIgnoreCase`,
  `Text.StartsWithIgnoreCase`) is modelled by upper-casing both sides character by character.
- `ThemeImport.CleanTitleShape`: the culture-sensitive `IndexOf("(")` is modelled as the index
  of the first `(` character.
- EF Core is left out: only the effect of each query on an in-memory table is modelled.
  `QuestionIndex.QuestionStore.Unthemed` returns the rows in whatever order its loop picks them,
  since the query fixes no order. The index is proved right for every order.
- `ThemeMatcher.MatchAsync` models the `Themes` query as its input table, filtered.
  `LoadHtmlAsync` is modelled as failing when its final UTF-8 decoding throws. An exception from
  `ParseQuestionTitles` or from the update (which the source does not catch) is not modelled.
- `TicketParser.ScrapeTickets` is given the 40 parsed pages. A failing `GetStringAsync`, which
  ends the whole program, is not modelled, and neither is the final console dump.
- The controllers, migrations, DI configuration, mapping profile and the web client are not part
  of this model.
