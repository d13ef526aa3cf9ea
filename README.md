# html-processor core, modelled in Dafny

This project models the text-level core of the PHP library `hirasso/html-processor`. Its parts:

* **Quote engine.** Several variants of one algorithm:
  * a finder reports every quotation mark with whether it may open (no letter before it) and whether it may close (no letter after it);
  * a pairer gives each mark an Open or Close role, using per-kind stacks, one shared stack, or per-kind counters;
  * consumers either substitute locale glyphs (`QuoteReplacer`), wrap quotations in `<q>` tags (`Quotes/QuoteWrapper`), or emit a Text/Open/Close segment list (`QuoteNormalizer/QuoteWrapper`, the internal `QuoteParser`).
* **Quote styles.** The locale glyph table (`QuoteStyle`).
* **Widow engine** (`ShortLastLineAvoider`). It has three parts:
  * `injectNonbreakingSpace`, the word-count and length guard that glues the last two words with `&nbsp;`;
  * the reverse depth-first search for the last text node;
  * the block-by-block `run`, over an abstract document tree.
* **Service queues.** `DOMQueue` and `HTMLQueue` are classes whose list of services is kept free of duplicate identities and sorted by priority. They thread a document or an HTML string through their services in order.
* **Prefix linker** (`PrefixLinker`). It registers prefixes, normalises URLs, turns `prefix…` words into links, and rewrites every text node outside `<a>`.
* **Support helpers.** `normalizeWhitespace` and `containsOnlyText`.

Text is modelled as a sequence of Unicode code points. The source's byte offsets become code-point indices. Every quotation mark the finders report is a single code point, so the two agree on UTF-8 input.

`\p{L}` and `\p{N}` are the predicates `Text.IsLetter` and `Text.IsNumber`. They list the Latin, Latin-1, Latin Extended, Greek and Cyrillic ranges. Every lemma holds for any definition of them, except the concrete examples.

Modules and the source files they model:

| module | file |
|---|---|
| `Wrappers` | the `Option` type |
| `Text` | the PHP string built-ins the core uses |
| `Dom` | the abstract document tree |
| `Support` | src/Support/Support.php |
| `QuoteChars` | the quotation mark variants and the curly-to-ASCII reset |
| `QuoteFinder` | both `QuoteFinder` classes |
| `QuotePairing` | the three `assignRoles` variants |
| `QuotesReplacer` | src/Service/DOM/Quotes/QuoteReplacer.php |
| `QuotesWrapper` | src/Service/DOM/Quotes/QuoteWrapper.php |
| `QuoteNormalizer` | src/Service/DOM/QuoteNormalizer/QuoteWrapper.php |
| `Segments` | the shared cursor loop that builds segments |
| `QuoteParser` | src/Internal/Service/DOM/QuoteNormalizer/QuoteParser.php |
| `QuoteStyle` | src/Service/DOM/QuoteLocalizer/QuoteStyle.php |
| `ShortLastLineAvoider` | src/Internal/Service/DOM/ShortLastLineAvoider/ShortLastLineAvoider.php |
| `ServiceQueue` | the ordered service list both queues share |
| `DomQueues` | src/Internal/Queue/DOMQueue.php |
| `HtmlQueues` | src/Queue/HTMLQueue.php |
| `PrefixLinkers` | src/Internal/Service/DOM/PrefixLinker.php |

## Model

| member | source | states |
|---|---|---|
| Text.TrimLeft | src/Internal/Service/DOM/ShortLastLineAvoider/ShortLastLineAvoider.php:103 | `ltrim` keeps a suffix of its input that does not start with a character `trim` strips, and every character it drops is one that `trim` strips |
| Text.TrimRight | src/Internal/Service/DOM/ShortLastLineAvoider/ShortLastLineAvoider.php:103 | `rtrim` keeps a prefix of its input that does not end with a character `trim` strips, and every character it drops is one that `trim` strips |
| Text.TrimAllTrimmed | src/Internal/Service/DOM/ShortLastLineAvoider/ShortLastLineAvoider.php:134 | a string made only of characters `trim` strips trims to the empty string |
| Text.Lower | src/Internal/Service/DOM/ShortLastLineAvoider/ShortLastLineAvoider.php:115 | `strtolower` keeps the length, turns every ASCII capital into its small letter (code point plus 32) and leaves every other character as it is, so no ASCII capital remains |
| Text.ReplaceAllAbsent | src/Support/Support.php:43 | `str_replace` leaves text that does not contain the needle unchanged |
| Text.ReplaceAllNeedle | src/Support/Support.php:43 | `str_replace` turns the needle on its own into the replacement |
| Text.JoinSplit | src/Internal/Service/DOM/ShortLastLineAvoider/ShortLastLineAvoider.php:138 | `implode` after `explode` on the same separator rebuilds the string |
| Text.SplitNoSeparator | src/Internal/Service/DOM/ShortLastLineAvoider/ShortLastLineAvoider.php:138 | no piece `explode` returns contains the separator |
| Text.SplitCount | src/Internal/Service/DOM/ShortLastLineAvoider/ShortLastLineAvoider.php:138-139 | `explode` returns one piece more than there are separators |
| Text.SplitWord | src/Internal/Service/DOM/ShortLastLineAvoider/ShortLastLineAvoider.php:138 | a separator-free word followed by the separator is the first piece, and the rest is split the same way |
| Text.SplitNone | src/Internal/Service/DOM/ShortLastLineAvoider/ShortLastLineAvoider.php:138 | a string without the separator is a single piece |
| Text.JoinSnoc | src/Internal/Service/DOM/ShortLastLineAvoider/ShortLastLineAvoider.php:152-154 | joining all pieces but the last, then the separator, then the last piece, equals joining all the pieces |
| Text.JoinCons | src/Internal/Service/DOM/ShortLastLineAvoider/ShortLastLineAvoider.php:154 | `implode` puts exactly one separator between a first word and the join of the rest |
| Dom.Shape | src/Internal/Service/DOM/ShortLastLineAvoider/ShortLastLineAvoider.php:54 | erasing text keeps each node's kind: text nodes stay text nodes and elements stay elements |
| Dom.SetText | src/Internal/Service/DOM/ShortLastLineAvoider/ShortLastLineAvoider.php:54 | assigning `textContent` to a text node keeps the tree's shape, and that node then holds exactly the new text |
| Dom.SetTextElsewhere | src/Internal/Service/DOM/ShortLastLineAvoider/ShortLastLineAvoider.php:54 | assigning one text node leaves every other text node as it was |
| Support.Collapse | src/Support/Support.php:46 | `preg_replace('/\s+/', ' ')`: every run of white space becomes one plain space, so no two white-space characters are adjacent. The words (maximal runs of other characters) are the input's words, in order, and the text without its white space is the input's. The result is empty exactly when the input is, and starts, and ends, with white space exactly when the input does |
| Support.EndsInSpaceLast | src/Support/Support.php:46 | text ends in white space exactly when its last character is white space |
| Support.WordsCons | src/Support/Support.php:46 | a non-space character put in front starts a word of its own when white space or nothing follows it, and joins the first word of the rest otherwise |
| Support.SqueezedUnique | src/Support/Support.php:46 | two squeezed texts with the same words, both empty or both not, and with white space at the start and at the end in the same places, are equal |
| Support.CollapseUnique | src/Support/Support.php:46 | the collapse is the only squeezed text with the input's words and with white space at the start and at the end exactly where the input has it |
| Support.CollapseSqueezed | src/Support/Support.php:46 | text already squeezed to single spaces is left unchanged |
| Support.CollapseFixedPoints | src/Support/Support.php:46 | collapsing is idempotent, and a string is its own collapse exactly when it is squeezed |
| Support.BlankHasNoPlaceholder | src/Support/Support.php:43-44 | blank text never contains the parser's nbsp placeholder, so the first replacement leaves it alone |
| Support.SpaceIsNormal | src/Support/Support.php:45-46 | a single space is not a lone `&nbsp;`, and collapsing keeps it |
| Support.NormalizeBlank | src/Support/Support.php:41-48 | whitespace-only text, the empty string included, normalises to a single space |
| Support.NormalizePlaceholder | src/Support/Support.php:43 | the nbsp placeholder token on its own normalises to a single space |
| Support.NormalizeNbspAlone | src/Support/Support.php:45 | `&nbsp;`, in any letter case and with only blanks around it, normalises to a single space |
| Support.NormalizeOther | src/Support/Support.php:46 | any other text is only collapsed: the result is squeezed, has the input's words in order, and starts and ends with white space exactly when the input does |
| Support.NormalizeSqueezed | src/Support/Support.php:41-48 | the normalised text is always squeezed and never empty |
| Support.OnlyText | src/Support/Support.php:73-79 | the loop over the children is true exactly when every child is a text node |
| Support.ContainsOnlyText | src/Support/Support.php:67-80 | true for an element without children; in general, true exactly when every child is a text node |
| QuoteChars.VariantsAreNotLetters | src/Internal/Service/DOM/QuoteLocalizer/SingleQuote.php:14-21 | no quotation mark variant is a letter, a number or white space, so the letter look-arounds never count a mark as a letter |
| QuoteChars.ResetToAscii | src/Service/DOM/Quotes/QuoteReplacer.php:52-65 | the reset keeps the text's length |
| QuoteChars.ResetToAsciiEffect | src/Service/DOM/Quotes/QuoteReplacer.php:52-65 | characters outside the variant class are kept, and so is a variant between two letters (an apostrophe); every other variant becomes the ASCII mark |
| QuoteChars.ResetToAsciiIdempotent | src/Service/DOM/Quotes/QuoteReplacer.php:52-65 | resetting twice gives the same text as resetting once |
| QuoteChars.ResetKeeps | src/Service/DOM/Quotes/QuoteReplacer.php:52-65 | text whose only variants are the ASCII mark itself is left as it is |
| QuoteChars.Normalized | src/Service/DOM/Quotes/QuoteReplacer.php:36-37 | the single-then-double reset keeps the text's length |
| QuoteChars.NormalizedKeepsAscii | src/Service/DOM/Quotes/QuoteReplacer.php:36-37 | text holding only ASCII quotation marks is left unchanged by both resets |
| QuoteFinder.ScanReports | src/Service/DOM/QuoteLocalizer/QuoteFinder.php:32-44 | every match is at a mark of the pattern and is one character long. It is Single exactly for `'`. It may open exactly when no letter precedes it, and may close exactly when no letter follows it |
| QuoteFinder.ScanSorted | src/Service/DOM/QuoteLocalizer/QuoteFinder.php:28-46 | the matches are in strictly ascending position order |
| QuoteFinder.ScanComplete | src/Service/DOM/QuoteLocalizer/QuoteFinder.php:28-46 | every mark of the pattern in the text has a match |
| QuoteFinder.Find | src/Service/DOM/QuoteLocalizer/QuoteFinder.php:24-47 | the loop collects exactly the scan's matches, and text without marks yields an empty list |
| QuoteFinder.BoundariesAreOpenAndClose | src/Service/DOM/QuoteLocalizer/QuoteFinder.php:52-75 | a mark at index 0 may open, and a mark at the last index may close |
| QuoteFinder.ScanSkip | src/Service/DOM/QuoteLocalizer/QuoteFinder.php:28-32 | a stretch without marks contributes no match |
| QuoteFinder.ScanAcross | src/Service/DOM/QuoteLocalizer/QuoteFinder.php:32-44 | a mark followed by a stretch without marks contributes exactly its own match |
| QuoteFinder.FoundMatches | src/Service/DOM/QuoteNormalizer/QuoteFinder.php:22-41 | the matches are in ascending position order, and each is reported correctly; with the pattern `"` this is the `"`-only finder |
| QuoteFinder.ByPosition | src/Service/DOM/Quotes/QuoteWrapper.php:159-162 | every position in the index maps to the index of an existing match |
| QuoteFinder.IndexByPosition | src/Service/DOM/Quotes/QuoteWrapper.php:159-162 | the indexing loop builds exactly the position index |
| QuoteFinder.ByPositionAt | src/Service/DOM/Quotes/QuoteWrapper.php:159-162 | with distinct positions, every match is found at its own position, and every indexed position holds a match at that position |
| QuotePairing.AssignRolesPerKind | src/Service/DOM/Quotes/QuoteWrapper.php:114-149 | the per-kind stack loop followed by the clearing loops gives exactly the walked roles with unpaired openers cleared |
| QuotePairing.AssignRolesOneStack | src/Service/DOM/QuoteNormalizer/QuoteWrapper.php:70-89 | the single-stack loop followed by the clearing loop gives exactly the one-stack walk's roles with unpaired openers cleared |
| QuotePairing.AssignRolesCounters | src/Service/DOM/Quotes/QuoteReplacer.php:110-135 | the counter loop gives exactly the counter walk's roles |
| QuotePairing.ClearUnpaired | src/Service/DOM/Quotes/QuoteWrapper.php:142-148 | the clearing loops remove the role of exactly the indices left on either stack |
| QuotePairing.WalkWellStacked | src/Service/DOM/Quotes/QuoteWrapper.php:121-140 | the walk gives one role per mark, and each stack holds, in increasing order, earlier openers of its own kind |
| QuotePairing.StepWellStacked | src/Service/DOM/Quotes/QuoteWrapper.php:125-139 | one step of the loop keeps the stacks well formed |
| QuotePairing.WalkPrefix | src/Service/DOM/Quotes/QuoteWrapper.php:121-140 | a role, once given, is never revised: the walk of a prefix is a prefix of the walk |
| QuotePairing.RoleAt | src/Service/DOM/Quotes/QuoteWrapper.php:125-139 | a mark closes when it may close and its stack is non-empty; otherwise it opens when it may open; otherwise it gets no role |
| QuotePairing.NotOnStack | src/Service/DOM/Quotes/QuoteWrapper.php:132-138 | only openers are ever pushed |
| QuotePairing.UnpairedOpenersCleared | src/Service/DOM/Quotes/QuoteWrapper.php:142-148 | an opener still on a stack at the end loses its role, and every other role survives the clearing |
| QuotePairing.ApostropheHasNoRole | src/Service/DOM/Quotes/QuoteWrapper.php:125-139 | a mark that may neither open nor close (a letter on both sides) gets no role from either stack variant |
| QuotePairing.ApostropheHasNoCountedRole | src/Service/DOM/Quotes/QuoteReplacer.php:119-133 | such a mark gets no role from the counter variant either |
| QuotePairing.CloseBeforeOpen | src/Service/DOM/Quotes/QuoteWrapper.php:125-131 | a mark that may close while its stack holds an opener closes and keeps that role after clearing, even when it could also open |
| QuotePairing.RolesRespectContext | src/Service/DOM/Quotes/QuoteWrapper.php:125-139 | an opener could open and a closer could close |
| QuotePairing.CountersAreStackDepths | src/Service/DOM/Quotes/QuoteReplacer.php:112-134 | the counter walk gives the same roles as the per-kind stack walk, and each counter equals its stack's depth, so it never goes negative |
| QuotePairing.CountersKeepUnpairedOpeners | src/Service/DOM/Quotes/QuoteReplacer.php:110-135 | the counter variant and the per-kind stack variant differ exactly on unpaired openers: the counters keep them as openers, the stacks clear them |
| QuotePairing.StackDepth | src/Service/DOM/Quotes/QuoteWrapper.php:125-139 | on each stack, the openers given so far outnumber the closers by exactly the stack's depth |
| QuotePairing.ClearedOpens | src/Service/DOM/Quotes/QuoteWrapper.php:142-148 | clearing removes from a kind's openers exactly the openers on that kind's stack |
| QuotePairing.ClearedCloses | src/Service/DOM/Quotes/QuoteWrapper.php:142-148 | clearing changes no closing role |
| QuotePairing.Balanced | src/Service/DOM/Quotes/QuoteWrapper.php:114-149 | after clearing, each stack gets as many opening roles as closing roles |
| QuotePairing.TotalBalanced | src/Service/DOM/Quotes/QuoteWrapper.php:114-149 | after clearing, the openers equal the closers in number over both kinds together |
| QuotePairing.IndependentStacks | src/Service/DOM/Quotes/QuoteWrapper.php:117-123 | with per-kind stacks, changing only marks of the other kind changes neither this kind's stack nor its roles |
| QuotePairing.IndependentRoles | src/Service/DOM/Quotes/QuoteWrapper.php:117-148 | the same independence holds after clearing |
| QuotePairing.StackSurvivors | src/Service/DOM/Quotes/QuoteWrapper.php:125-139 | an opener still on its stack at the end that stands before mark `j` was already on that stack after the first `j` marks: a popped index is never pushed again |
| QuotePairing.KindPrefixBalanced | src/Service/DOM/Quotes/QuoteWrapper.php:114-149 | after clearing, no prefix of the marks holds more closers than openers of one kind |
| QuotePairing.PrefixBalanced | src/Service/DOM/Quotes/QuoteWrapper.php:114-149 | after clearing, no prefix of the marks holds more closers than openers over both kinds |
| QuoteStyle.FromLang | src/Service/DOM/QuoteLocalizer/QuoteStyle.php:55-58 | a style that is found has exactly the requested code |
| QuoteStyle.FromLangCode | src/Service/DOM/QuoteLocalizer/QuoteStyle.php:18-21 | every style is found again from its own code |
| QuoteStyle.FromLangUnsupported | src/Service/DOM/QuoteLocalizer/QuoteStyle.php:55-58 | any code other than en, de, fr and es finds no style |
| QuoteStyle.ReplacerOf | src/Service/DOM/QuoteLocalizer/QuoteStyle.php:26-50 | every style's replacer carries the style's own code as `lang` |
| QuoteStyle.GermanDoubles | src/Service/DOM/QuoteLocalizer/QuoteStyle.php:34-38 | German double quotations open with U+201E and close with U+201C |
| QuoteStyle.FrenchNarrowSpaces | src/Service/DOM/QuoteLocalizer/QuoteStyle.php:39-43 | every French glyph is two characters, with U+202F after the opening guillemet and before the closing one |
| QuoteStyle.GermanHallo | src/Service/DOM/QuoteLocalizer/QuoteStyle.php:34-38 | localising `"Hallo"` with the German style gives „Hallo“, and `'Hallo'` gives ‚Hallo‘ |
| QuoteStyle.EnglishHello | src/Service/DOM/QuoteLocalizer/QuoteStyle.php:29-33 | localising `"Hello"` with the English style gives “Hello” |
| QuotesReplacer.FoundLaid | src/Service/DOM/Quotes/QuoteReplacer.php:77 | the found matches lie inside the text, in order and without overlapping |
| QuotesReplacer.TailStep | src/Service/DOM/Quotes/QuoteReplacer.php:84-94 | the output from a match on is the text up to the match, the match's replacement, then the output from the next match |
| QuotesReplacer.ReverseStep | src/Service/DOM/Quotes/QuoteReplacer.php:84-94 | one pass of the reverse loop keeps its invariant. A mark without a role is left as it is. A mark with a role is replaced, through `substr_replace`, by the glyph of its kind and role. Everything before it is unchanged, so earlier positions stay valid |
| QuotesReplacer.LocalizeWithStack | src/Service/DOM/Quotes/QuoteReplacer.php:74-97 | find, the counter walk and the reverse `substr_replace` loop give exactly the localised text |
| QuotesReplacer.ApplyTo | src/Service/DOM/Quotes/QuoteReplacer.php:33-43 | `applyTo` resets curly marks to ASCII, single variants then double variants, then localises |
| QuotesReplacer.SubstitutedPlain | src/Service/DOM/Quotes/QuoteReplacer.php:86-88 | a stretch holding no mark with a role is copied as it is |
| QuotesReplacer.ReplacementInPlace | src/Service/DOM/Quotes/QuoteReplacer.php:90-93 | a mark's replacement is the glyph chosen at its own position |
| QuotesReplacer.GapPlain | src/Service/DOM/Quotes/QuoteReplacer.php:84-94 | the text between two consecutive matches holds no mark and is copied as it is |
| QuotesReplacer.TailSubstituted | src/Service/DOM/Quotes/QuoteReplacer.php:82-94 | replacing from the last mark back to a given one gives the same text as substituting each mark in place, independently of the others |
| QuotesReplacer.LocalizeInPlace | src/Service/DOM/Quotes/QuoteReplacer.php:82-94 | replacing from the end backwards equals substituting every mark at its original position: the earlier positions are never shifted |
| QuotesReplacer.UnchangedWithoutRoles | src/Service/DOM/Quotes/QuoteReplacer.php:86-88 | text in which no mark gets a role (text without marks included) comes back unchanged |
| QuotesReplacer.QuotedWord | src/Service/DOM/Quotes/QuoteReplacer.php:90-91 | a word between two marks of one kind, with letters just inside them, gets that kind's opening glyph before it and its closing glyph after it |
| QuotesReplacer.UnclosedOpenerReplaced | src/Service/DOM/Quotes/QuoteReplacer.php:119-133 | the counters never clear an opener that is not closed: the mark of `"a` still gets its opening glyph |
| QuotesWrapper.Pieces | src/Service/DOM/Quotes/QuoteWrapper.php:167-184 | there is one piece per character of the text |
| QuotesWrapper.BuildOutput | src/Service/DOM/Quotes/QuoteWrapper.php:156-187 | the byte loop emits exactly the rendered pieces: `<q>` for an opener, `</q>` for a closer, and every other character as it is |
| QuotesWrapper.WrapQuotes | src/Service/DOM/Quotes/QuoteWrapper.php:19-27 | `wrapQuotes` resets curly marks, then finds, pairs with per-kind stacks, and emits |
| QuotesWrapper.TextPreserved | src/Service/DOM/Quotes/QuoteWrapper.php:167-184 | in the reset text it is given, every character that is not a mark is copied at its own place. A tag stands only where a mark was. A mark that gets no role, such as an apostrophe or an unpaired opener, is copied as it is. A curly mark in the caller's text has been reset to ASCII by then (see `UnpairedCurlyOpenerReset`) |
| QuotesWrapper.ApostropheCopied | src/Service/DOM/Quotes/QuoteWrapper.php:99-100 | a mark with a letter on both sides is copied as it is |
| QuotesWrapper.PositionsOfSize | src/Service/DOM/Quotes/QuoteWrapper.php:159-162 | distinct matches have distinct positions, so indexing by position loses none |
| QuotesWrapper.TagsAtRoles | src/Service/DOM/Quotes/QuoteWrapper.php:171-176 | the tags of a role stand exactly at the positions of the matches with that role |
| QuotesWrapper.TagsBefore | src/Service/DOM/Quotes/QuoteWrapper.php:167-176 | among the first `j` output pieces, the tags of a role are exactly as many as the marks of that role that stand before `j` |
| QuotesWrapper.TagsBalanced | src/Service/DOM/Quotes/QuoteWrapper.php:114-176 | the tags are properly nested: as many `<q>` as `</q>` are emitted, and no prefix of the output holds more `</q>` than `<q>` |
| QuotesWrapper.RenderLiterals | src/Service/DOM/Quotes/QuoteWrapper.php:181-183 | pieces that are all literals render as their characters |
| QuotesWrapper.UnchangedWithoutPairs | src/Service/DOM/Quotes/QuoteWrapper.php:167-184 | with no paired mark, the text comes back unchanged |
| QuotesWrapper.NestedScan | src/Service/DOM/Quotes/QuoteWrapper.php:70-106 | the four marks of `"outer 'inner' outer"` are found with their kinds and their open and close flags |
| QuotesWrapper.NestedWalk | src/Service/DOM/Quotes/QuoteWrapper.php:114-149 | in that example, both the outer and the inner marks are paired |
| QuotesWrapper.NestedPieces | src/Service/DOM/Quotes/QuoteWrapper.php:167-184 | in that example, tags stand at the four marks and every other character is a literal |
| QuotesWrapper.RenderRange | src/Service/DOM/Quotes/QuoteWrapper.php:181-183 | a run of literal pieces renders as the characters it copies |
| QuotesWrapper.Nested | src/Service/DOM/Quotes/QuoteWrapper.php:11-12 | `"outer 'inner' outer"` becomes `<q>outer <q>inner</q> outer</q>` |
| QuotesWrapper.NestedWrapped | src/Service/DOM/Quotes/QuoteWrapper.php:11-12 | the same holds through the whole of `wrapQuotes`, reset included |
| QuotesWrapper.UnpairedCurlyOpenerReset | src/Service/DOM/Quotes/QuoteWrapper.php:19-27 | `wrapQuotes` resets before it pairs: an unpaired curly opener as in `„a` comes back as the ASCII `"a`, not as it was given |
| Segments.Substr | src/Service/DOM/QuoteNormalizer/QuoteWrapper.php:108 | `substr` never returns more than the requested length |
| Segments.EmitUnfold | src/Service/DOM/QuoteNormalizer/QuoteWrapper.php:106-116 | each mark gives the text since the cursor, when there is any, then its own quote segment, and the cursor moves past the mark |
| Segments.EmitRoles | src/Service/DOM/QuoteNormalizer/QuoteWrapper.php:111-113 | the quote segments carry the marks' roles, one per mark, in order |
| Segments.EmitNoEmptyText | src/Service/DOM/QuoteNormalizer/QuoteWrapper.php:107-120 | with the marks in order, no text segment is empty |
| Segments.EmitRoundTrip | src/Service/DOM/QuoteNormalizer/QuoteWrapper.php:103-120 | joining the segments, with each mark's character in place of its quote segment, gives back the text from the cursor on |
| Segments.RoundTripStep | src/Service/DOM/QuoteNormalizer/QuoteWrapper.php:106-116 | one mark of the round trip: the text before it, its character, then the rest |
| Segments.WalkCursor | src/Service/DOM/QuoteNormalizer/QuoteWrapper.php:103-116 | the cursor loop over the paired marks builds exactly the emitted segments |
| Segments.EmitMark | src/Service/DOM/QuoteNormalizer/QuoteWrapper.php:107-113 | one turn of the loop appends the text since the cursor, when there is any, then the mark's segment |
| Segments.CursorStep | src/Service/DOM/QuoteNormalizer/QuoteWrapper.php:106-116 | one turn of the cursor loop keeps its invariant |
| Segments.WalkEnd | src/Service/DOM/QuoteNormalizer/QuoteWrapper.php:118-120 | after the last mark, the rest of the text, if any, is the last segment |
| Segments.NestedEmit | src/Internal/Service/DOM/QuoteNormalizer/QuoteParser.php:11-12 | the cursor walk over the paired marks of `"outer "inner" outer"` gives the documented segments |
| QuoteNormalizer.ResetQuotes | src/Service/DOM/QuoteNormalizer/QuoteWrapper.php:42-51 | the reset keeps the text's length |
| QuoteNormalizer.ResetQuotesIdempotent | src/Service/DOM/QuoteNormalizer/QuoteWrapper.php:42-51 | resetting an already reset text changes nothing |
| QuoteNormalizer.FilterActive | src/Service/DOM/QuoteNormalizer/QuoteWrapper.php:97 | `array_filter` keeps exactly the marks with a role, in order |
| QuoteNormalizer.BuildSegments | src/Service/DOM/QuoteNormalizer/QuoteWrapper.php:95-123 | `buildSegments` returns exactly the segments of the marks with a role: none for empty text, one text segment when no mark has a role, the cursor walk otherwise |
| QuoteNormalizer.WrapQuotes | src/Service/DOM/QuoteNormalizer/QuoteWrapper.php:28-35 | `wrapQuotes` resets, finds the `"` marks, pairs them on one stack, and builds the segments |
| QuoteNormalizer.ActiveInOrder | src/Service/DOM/QuoteNormalizer/QuoteWrapper.php:97 | filtering keeps the marks in ascending order inside the text |
| QuoteNormalizer.ActiveRoles | src/Service/DOM/QuoteNormalizer/QuoteWrapper.php:97 | the filtered marks with a given role are exactly as many as the marks with that role |
| QuoteNormalizer.NoActiveIsPlainWalk | src/Service/DOM/QuoteNormalizer/QuoteWrapper.php:99-101 | with no mark that has a role, the result is `[]` for empty text and a single text segment otherwise |
| QuoteNormalizer.WrappedMarks | src/Service/DOM/QuoteNormalizer/QuoteWrapper.php:56-61 | the paired marks are in order inside the reset text, and each is a `"` |
| QuoteNormalizer.WrappedNoEmptyText | src/Service/DOM/QuoteNormalizer/QuoteWrapper.php:107-120 | no text segment `wrapQuotes` returns is empty |
| QuoteNormalizer.WrappedRoundTrip | src/Service/DOM/QuoteNormalizer/QuoteWrapper.php:103-120 | joining the text segments, with `"` in place of each quote segment, rebuilds the reset text |
| QuoteNormalizer.ActiveNests | src/Service/DOM/QuoteNormalizer/QuoteWrapper.php:97 | dropping the marks without a role keeps every prefix balanced: no prefix of the kept roles holds more closers than openers |
| QuoteNormalizer.WrappedBalanced | src/Service/DOM/QuoteNormalizer/QuoteWrapper.php:70-89 | the quote segments are properly nested: as many open as close segments, and no prefix of the segments closes more quotations than it opened |
| QuoteNormalizer.NestedScan | src/Service/DOM/QuoteNormalizer/QuoteFinder.php:22-41 | the four `"` of `"outer "inner" outer"` are found with their open and close flags |
| QuoteNormalizer.NestedStack | src/Service/DOM/QuoteNormalizer/QuoteWrapper.php:70-89 | on one stack, that example gives two openers, then two closers |
| QuoteNormalizer.Nested | src/Service/DOM/QuoteNormalizer/QuoteWrapper.php:11-12 | `"outer "inner" outer"` gives `[QuoteOpen, Text("outer "), QuoteOpen, Text("inner"), QuoteClose, Text(" outer"), QuoteClose]` |
| QuoteParser.PatternsExclusive | src/Internal/Service/DOM/QuoteNormalizer/QuoteParser.php:141-149 | the opening, closing and default patterns never match the same mark |
| QuoteParser.MatchesReport | src/Internal/Service/DOM/QuoteNormalizer/QuoteParser.php:151-165 | every candidate of a pattern stands at a mark that pattern matches, carries that mark and its pattern's flags, and the candidates ascend by position |
| QuoteParser.MatchesComplete | src/Internal/Service/DOM/QuoteNormalizer/QuoteParser.php:151-165 | every mark the pattern matches becomes a candidate |
| QuoteParser.DefaultsAreInert | src/Internal/Service/DOM/QuoteNormalizer/QuoteParser.php:148-162 | the default pattern's candidates may neither open nor close |
| QuoteParser.InOrderPermutation | src/Internal/Service/DOM/QuoteNormalizer/QuoteParser.php:102-109 | the candidates in position order are exactly the three patterns' candidates, reordered |
| QuoteParser.PairAllAlternates | src/Internal/Service/DOM/QuoteNormalizer/QuoteParser.php:46-54 | each pop emits the popped opener's Open and then the current candidate's Close, so the pairs alternate and balance |
| QuoteParser.PairAllOrigin | src/Internal/Service/DOM/QuoteNormalizer/QuoteParser.php:46-54 | each Open comes from a candidate that may open, each Close from one that may close, and only openers wait on the stack |
| QuoteParser.PairAllBags | src/Internal/Service/DOM/QuoteNormalizer/QuoteParser.php:46-54 | the stack and the pairs together use each candidate position at most once |
| QuoteParser.UnpairedOpenersDropped | src/Internal/Service/DOM/QuoteNormalizer/QuoteParser.php:46-59 | openers left on the stack are not returned, and the returned quotes have distinct positions |
| QuoteParser.PairAllNests | src/Internal/Service/DOM/QuoteNormalizer/QuoteParser.php:46-54 | with candidates in position order, before any position there are at least as many Opens as Closes |
| QuoteParser.InertCandidatesIgnored | src/Internal/Service/DOM/QuoteNormalizer/QuoteParser.php:47-53 | candidates that may neither open nor close leave the stack and the pairs unchanged |
| QuoteParser.DefaultsNeverPair | src/Internal/Service/DOM/QuoteNormalizer/QuoteParser.php:102-109 | the default pattern's candidates take no part in the pairing |
| QuoteParser.SortPermutes | src/Internal/Service/DOM/QuoteNormalizer/QuoteParser.php:57 | sorting by position returns the same quotes |
| QuoteParser.SortSorted | src/Internal/Service/DOM/QuoteNormalizer/QuoteParser.php:57 | the sorted quotes ascend by position, strictly when the positions are distinct |
| QuoteParser.CountsSort | src/Internal/Service/DOM/QuoteNormalizer/QuoteParser.php:56-57 | sorting keeps the number of quotes of each role, in total and before any position |
| QuoteParser.FindPairedQuotes | src/Internal/Service/DOM/QuoteNormalizer/QuoteParser.php:39-60 | the stack loop returns the pairs of the pairing function, sorted by position |
| QuoteParser.NestedFromBelow | src/Internal/Service/DOM/QuoteNormalizer/QuoteParser.php:10-12 | sorted quotes whose Opens lead everywhere and balance overall are well nested |
| QuoteParser.BuildSegments | src/Internal/Service/DOM/QuoteNormalizer/QuoteParser.php:66-95 | the early returns for an empty text and for no quotes, then the cursor walk |
| QuoteParser.Parse | src/Internal/Service/DOM/QuoteNormalizer/QuoteParser.php:21-31 | candidates in position order, then pairing, then segments |
| QuoteParser.ParsedEmpty | src/Internal/Service/DOM/QuoteNormalizer/QuoteParser.php:68-70 | `""` and `"0"`, both empty to PHP, give no segment |
| QuoteParser.ParsedPlain | src/Internal/Service/DOM/QuoteNormalizer/QuoteParser.php:72-74 | a non-empty text without any quotation mark gives a single text segment |
| QuoteParser.PairedQuotesFacts | src/Internal/Service/DOM/QuoteNormalizer/QuoteParser.php:39-60 | the paired quotes ascend strictly, each is the mark at its own position, and their roles are well nested |
| QuoteParser.ParsedNests | src/Internal/Service/DOM/QuoteNormalizer/QuoteParser.php:8-12 | the quote segments never close a quotation that was not opened, and close all that were |
| QuoteParser.ParsedNoEmptyText | src/Internal/Service/DOM/QuoteNormalizer/QuoteParser.php:80-92 | no text segment is empty |
| QuoteParser.ParsedRoundTrip | src/Internal/Service/DOM/QuoteNormalizer/QuoteParser.php:76-94 | joining the segments, with each paired mark in place of its quote segment, gives back the text |
| QuoteParser.QuotesRoundTrip | src/Internal/Service/DOM/QuoteNormalizer/QuoteParser.php:79-92 | the cursor walk over ascending quotes at their own marks rebuilds the text |
| QuoteParser.ParsedWalk | src/Internal/Service/DOM/QuoteNormalizer/QuoteParser.php:68-79 | for a non-empty text with some quote, the segments are the cursor walk |
| QuoteParser.NestedFound | src/Internal/Service/DOM/QuoteNormalizer/QuoteParser.php:102-109 | as written, the candidates of `"x "x" x"` are the openers at 0 and 3 and then the closers at 5 and 8 |
| QuoteParser.NestedInOrder | src/Internal/Service/DOM/QuoteNormalizer/QuoteParser.php:102-109 | in position order the candidates of `"x "x" x"` are the same |
| QuoteParser.NestedSorted | src/Internal/Service/DOM/QuoteNormalizer/QuoteParser.php:46-57 | the inner pair is emitted first, and sorting restores the nesting order |
| QuoteParser.NestedWalk | src/Internal/Service/DOM/QuoteNormalizer/QuoteParser.php:79-92 | the cursor walk over the four marks of `"x "x" x"` |
| QuoteParser.NestedAsWritten | src/Internal/Service/DOM/QuoteNormalizer/QuoteParser.php:11-12 | as written, `"x "x" x"` gives Open, `x `, Open, `x`, Close, ` x`, Close, the documented shape |
| QuoteParser.Nested | src/Internal/Service/DOM/QuoteNormalizer/QuoteParser.php:11-12 | the corrected parser gives the same documented segments |
| QuoteParser.ReversedInOrder | src/Internal/Service/DOM/QuoteNormalizer/QuoteParser.php:102-109 | in position order, the closer of `x" "y` comes before its opener |
| QuoteParser.ReversedSorted | src/Internal/Service/DOM/QuoteNormalizer/QuoteParser.php:57 | sorting puts the closer at 1 before the opener at 3 |
| QuoteParser.ReversedWalk | src/Internal/Service/DOM/QuoteNormalizer/QuoteParser.php:79-92 | the cursor walk over a closer at 1 and an opener at 3 |
| QuoteParser.CloseFirstNotNested | src/Internal/Service/DOM/QuoteNormalizer/QuoteParser.php:8-12 | segments that close a quotation before opening one are not well nested |
| QuoteParser.AsWrittenClosesFirst | src/Internal/Service/DOM/QuoteNormalizer/QuoteParser.php:102-109 | as written, `x" "y` pairs the closer with the later opener, and the segments close before they open |
| QuoteParser.CorrectedKeepsText | src/Internal/Service/DOM/QuoteNormalizer/QuoteParser.php:102-109 | with the candidates in position order, `x" "y` stays one text segment |
| ShortLastLineAvoider.InjectBlank | src/Internal/Service/DOM/ShortLastLineAvoider/ShortLastLineAvoider.php:132-136 | text that is blank, the empty string included, comes back exactly as given |
| ShortLastLineAvoider.InjectFewWords | src/Internal/Service/DOM/ShortLastLineAvoider/ShortLastLineAvoider.php:138-143 | with fewer than `minWordCount` space-separated words, the text comes back normalised and nothing else |
| ShortLastLineAvoider.InjectLongTail | src/Internal/Service/DOM/ShortLastLineAvoider/ShortLastLineAvoider.php:145-150 | when the last two decoded words with a space between them are longer than `maxTailLength`, the text comes back normalised and nothing else |
| ShortLastLineAvoider.InjectGlues | src/Internal/Service/DOM/ShortLastLineAvoider/ShortLastLineAvoider.php:138-154 | when both guards pass, the result is the normalised text with its last space replaced by `&nbsp;`, every other character kept |
| ShortLastLineAvoider.SplitLast | src/Internal/Service/DOM/ShortLastLineAvoider/ShortLastLineAvoider.php:152-154 | popping the last word and joining the rest with spaces puts `&nbsp;` exactly where the last space was |
| ShortLastLineAvoider.LastSpaceUnique | src/Internal/Service/DOM/ShortLastLineAvoider/ShortLastLineAvoider.php:152-154 | the last space is unique, so the glued result is fully determined |
| ShortLastLineAvoider.NoAmpersandNoEntity | src/Support/Support.php:45 | text without `&` never matches the lone-`&nbsp;` pattern, in any letter case |
| ShortLastLineAvoider.SolidNotBlank | src/Internal/Service/DOM/ShortLastLineAvoider/ShortLastLineAvoider.php:134 | text with two characters `trim` keeps is not blank |
| ShortLastLineAvoider.FourWordsNormal | src/Support/Support.php:41-48 | `a b c d ` (one-letter words, each followed by a space) is already normalised and not blank |
| ShortLastLineAvoider.FourWordsSplit | src/Internal/Service/DOM/ShortLastLineAvoider/ShortLastLineAvoider.php:138 | exploding `a b c d ` on spaces gives the four words and a fifth, empty one |
| ShortLastLineAvoider.FourWordsJoin | src/Internal/Service/DOM/ShortLastLineAvoider/ShortLastLineAvoider.php:152-154 | imploding the four words with spaces gives `a b c d` without the trailing space |
| ShortLastLineAvoider.TrailingSpaceExample | src/Internal/Service/DOM/ShortLastLineAvoider/ShortLastLineAvoider.php:138-154 | with the default settings, `a b c d ` becomes `a b c d&nbsp;`: the trailing space is replaced, the last two words are not glued |
| ShortLastLineAvoider.IsInExcludedElement | src/Internal/Service/DOM/ShortLastLineAvoider/ShortLastLineAvoider.php:110-122 | true exactly when some ancestor's lower-cased tag is head, link, pre, code, script or style |
| ShortLastLineAvoider.LastValidNone | src/Internal/Service/DOM/ShortLastLineAvoider/ShortLastLineAvoider.php:73-95 | the reference search finds nothing exactly when no text node in document order is accepted |
| ShortLastLineAvoider.LastValidSome | src/Internal/Service/DOM/ShortLastLineAvoider/ShortLastLineAvoider.php:73-95 | what the reference search finds is the address of an accepted text node with no accepted one after it |
| ShortLastLineAvoider.FindLastIsLastLeaf | src/Internal/Service/DOM/ShortLastLineAvoider/ShortLastLineAvoider.php:73-95 | the reverse walk, each child before its descendants, finds the last candidate text node in document order |
| ShortLastLineAvoider.FindLastWithIsLastLeaf | src/Internal/Service/DOM/ShortLastLineAvoider/ShortLastLineAvoider.php:73-95 | the same for any acceptance test |
| ShortLastLineAvoider.FindAmongIsLastLeaf | src/Internal/Service/DOM/ShortLastLineAvoider/ShortLastLineAvoider.php:79-94 | walking the first `k` children from last to first finds the last accepted text node among them |
| ShortLastLineAvoider.FindInChildIsLastLeaf | src/Internal/Service/DOM/ShortLastLineAvoider/ShortLastLineAvoider.php:81-91 | one step of the walk: the child itself when it is accepted text, else the last accepted text node below it |
| ShortLastLineAvoider.LastValidStep | src/Internal/Service/DOM/ShortLastLineAvoider/ShortLastLineAvoider.php:81-91 | a later child's accepted text node wins over every earlier one |
| ShortLastLineAvoider.LeavesAreTextNodes | src/Internal/Service/DOM/ShortLastLineAvoider/ShortLastLineAvoider.php:73-95 | every text node met in document order is a text node of the tree at its address, with its own content and ancestors |
| ShortLastLineAvoider.FindLastSound | src/Internal/Service/DOM/ShortLastLineAvoider/ShortLastLineAvoider.php:73-107 | the node found is a non-blank text node outside every excluded element, and no later text node is such a candidate |
| ShortLastLineAvoider.ExcludedNeverFound | src/Internal/Service/DOM/ShortLastLineAvoider/ShortLastLineAvoider.php:106-122 | text under an excluded element is never found |
| ShortLastLineAvoider.FindLastNone | src/Internal/Service/DOM/ShortLastLineAvoider/ShortLastLineAvoider.php:73-95 | with no candidate text node anywhere, nothing is found |
| ShortLastLineAvoider.AvoidInBlock | src/Internal/Service/DOM/ShortLastLineAvoider/ShortLastLineAvoider.php:50-54 | rewriting one innermost block keeps the shape of the tree |
| ShortLastLineAvoider.Run | src/Internal/Service/DOM/ShortLastLineAvoider/ShortLastLineAvoider.php:32-57 | the rewritten tree has the same shape as the original |
| ShortLastLineAvoider.InnermostBlockRewritten | src/Internal/Service/DOM/ShortLastLineAvoider/ShortLastLineAvoider.php:46-54 | in a block with no block below it, the last candidate text node gets the injected text and every other text node is unchanged |
| ShortLastLineAvoider.OuterBlockKeepsOwnText | src/Internal/Service/DOM/ShortLastLineAvoider/ShortLastLineAvoider.php:46-48 | a block with another block below it is skipped: its own text children stay as they are |
| ShortLastLineAvoider.NoBlockUnchanged | src/Internal/Service/DOM/ShortLastLineAvoider/ShortLastLineAvoider.php:35-56 | a tree without any block element is left unchanged |
| ShortLastLineAvoider.BlockBelowAt | src/Internal/Service/DOM/ShortLastLineAvoider/ShortLastLineAvoider.php:62-68 | a block element at any address below a node makes that node contain block elements |
| ShortLastLineAvoider.RunAtInnermost | src/Internal/Service/DOM/ShortLastLineAvoider/ShortLastLineAvoider.php:41-54 | every innermost block anywhere in the document, not only at its root, is rewritten as one block is, with the tags above it as its ancestors |
| ShortLastLineAvoider.RunGluesInnermost | src/Internal/Service/DOM/ShortLastLineAvoider/ShortLastLineAvoider.php:50-54 | in a document, the last candidate text node of each innermost block gets the injected text |
| ShortLastLineAvoider.RunOutsideInnermost | src/Internal/Service/DOM/ShortLastLineAvoider/ShortLastLineAvoider.php:41-56 | a text node with no innermost block above it, inside inline elements or outer blocks, is left unchanged |
| ServiceQueue.Upsert | src/Internal/Queue/DOMQueue.php:19 | a service of a class not yet present is appended |
| ServiceQueue.UpsertAt | src/Internal/Queue/DOMQueue.php:19 | a service of a class already present takes that entry's place |
| ServiceQueue.UpsertMembers | src/Internal/Queue/DOMQueue.php:19 | afterwards the queue holds the new service and every service of another class, still one per class |
| ServiceQueue.ReplaceMembers | src/Internal/Queue/DOMQueue.php:19 | replacing the entry of a class keeps one entry per class and the same classes |
| ServiceQueue.AppendMembers | src/Internal/Queue/DOMQueue.php:19 | appending a new class keeps one entry per class and adds that class |
| ServiceQueue.Position | src/Internal/Queue/DOMQueue.php:20-22 | a service goes after every entry of no higher priority and before every entry of higher priority |
| ServiceQueue.Insert | src/Internal/Queue/DOMQueue.php:20-22 | one step of the sort keeps the order and adds exactly the one service |
| ServiceQueue.SpliceCount | src/Internal/Queue/DOMQueue.php:20-22 | splicing a service in adds exactly that service |
| ServiceQueue.SpliceSorted | src/Internal/Queue/DOMQueue.php:20-22 | splicing between the lower and the higher entries keeps ascending priority |
| ServiceQueue.SortByPrio | src/Internal/Queue/DOMQueue.php:20-22 | `uasort` by `prio()` gives ascending priority and the same services |
| ServiceQueue.SortStable | src/Internal/Queue/DOMQueue.php:20-22 | the sort is stable: services of equal priority keep their relative order |
| ServiceQueue.InsertStable | src/Internal/Queue/DOMQueue.php:20-22 | one sort step keeps each priority class in order and puts the new service last in its class |
| ServiceQueue.PermutationDistinct | src/Internal/Queue/DOMQueue.php:20-22 | reordering keeps one entry per class |
| ServiceQueue.Keep | src/Queue/HTMLQueue.php:44-50 | `array_filter` never returns more services than it was given |
| ServiceQueue.KeepMembers | src/Queue/HTMLQueue.php:44-50 | exactly the services the filter accepts are kept |
| ServiceQueue.KeepConcat | src/Queue/HTMLQueue.php:44-50 | filtering a concatenation filters each part |
| ServiceQueue.KeepAll | src/Queue/HTMLQueue.php:44-50 | a filter that accepts every service changes nothing |
| ServiceQueue.KeepSorted | src/Queue/HTMLQueue.php:44-50 | the filtered services are still in ascending priority |
| ServiceQueue.Lookup | src/Internal/Queue/DOMQueue.php:35-39 | `$services[$className] ?? null`: a found service is registered under that class, and nothing is found exactly when the class is absent |
| ServiceQueue.LookupDistinct | src/Internal/Queue/DOMQueue.php:35-39 | with one entry per class, the lookup finds exactly the entry of that class |
| ServiceQueue.AddMembers | src/Internal/Queue/DOMQueue.php:17-23 | after `add`, the queue holds the new service and the services of every other class it held, one per class |
| ServiceQueue.AddWellFormed | src/Internal/Queue/DOMQueue.php:17-23 | `add` keeps one entry per class in ascending priority and adds the service's class |
| ServiceQueue.AddLookup | src/Internal/Queue/DOMQueue.php:17-39 | after `add`, the service's class maps to it and every other class to what it mapped to before |
| ServiceQueue.ThreadConcat | src/Queue/HTMLQueue.php:51-53 | running two lists in turn is running their concatenation |
| ServiceQueue.ThreadTrace | src/Internal/Queue/DOMQueue.php:60-66 | each service runs exactly once, in the stored order |
| DomQueues.DomQueue.constructor | src/Internal/Queue/DOMQueue.php:15 | a new queue is empty |
| DomQueues.DomQueue.Add | src/Internal/Queue/DOMQueue.php:17-23 | the queue stays one entry per class in ascending priority; the class now maps to the service and every other class keeps its service |
| DomQueues.DomQueue.IsEmpty | src/Internal/Queue/DOMQueue.php:25-28 | true exactly when no class is registered |
| DomQueues.DomQueue.Get | src/Internal/Queue/DOMQueue.php:35-39 | the service registered for the class, or none exactly when the class is absent |
| DomQueues.DomQueue.RunServices | src/Internal/Queue/DOMQueue.php:60-66 | every service runs against the document in stored order, each on the previous one's result |
| DomQueues.DomQueue.ApplyTo | src/Internal/Queue/DOMQueue.php:44-55 | an empty queue returns the HTML untouched; otherwise the serialised result of running every service on the parsed document |
| HtmlQueues.HtmlQueue.constructor | src/Queue/HTMLQueue.php:14 | a new queue is empty |
| HtmlQueues.HtmlQueue.Add | src/Queue/HTMLQueue.php:16-22 | the queue stays one entry per class in ascending priority; the class now maps to the service and every other class keeps its service |
| HtmlQueues.HtmlQueue.IsEmpty | src/Queue/HTMLQueue.php:24-27 | true exactly when no class is registered |
| HtmlQueues.HtmlQueue.Get | src/Queue/HTMLQueue.php:34-38 | the service registered for the class, or none exactly when the class is absent |
| HtmlQueues.HtmlQueue.ApplyTo | src/Queue/HTMLQueue.php:40-55 | the services, or those the filter accepts, run in stored order on the HTML, each on the previous one's output; an empty queue returns it untouched |
| PrefixLinkers.HasQueryAppend | src/Internal/Service/DOM/PrefixLinker.php:35-37 | a character other than `?` and `#` at the end does not change whether the URL has a query |
| PrefixLinkers.NormalizeUrl | src/Internal/Service/DOM/PrefixLinker.php:31-45 | the result is the trimmed URL, or that with `/` appended, and it ends in `/` or `@` or has a query. The trimmed URL comes back unchanged exactly when it has a query or ends in `/` or `@`; otherwise `/` is appended |
| PrefixLinkers.TrimmedEnds | src/Internal/Service/DOM/PrefixLinker.php:33 | the result of `trim` begins and ends with characters `trim` keeps |
| PrefixLinkers.NormalizeIdempotent | src/Internal/Service/DOM/PrefixLinker.php:31-45 | normalising a normalised URL changes nothing |
| PrefixLinkers.UrlOf | src/Internal/Service/DOM/PrefixLinker.php:14-15 | no URL is found exactly when the prefix was never registered |
| PrefixLinkers.Registered | src/Internal/Service/DOM/PrefixLinker.php:25 | a prefix already present keeps its place in iteration order; a new one goes last |
| PrefixLinkers.RegisterUrl | src/Internal/Service/DOM/PrefixLinker.php:25 | after registering, the prefix maps to the new URL and every other prefix as before |
| PrefixLinkers.RegisterNonEmpty | src/Internal/Service/DOM/PrefixLinker.php:25 | registering a non-empty prefix keeps every prefix non-empty |
| PrefixLinkers.WordEnd | src/Internal/Service/DOM/PrefixLinker.php:80 | the lazy `(.*?)` with the lookahead `(?=\s\|$)` stops at the first white space or the end, and holds no white space |
| PrefixLinkers.ScanCopies | src/Internal/Service/DOM/PrefixLinker.php:79-86 | with no occurrence of the prefix, the replacement copies the text |
| PrefixLinkers.LinkIsScan | src/Internal/Service/DOM/PrefixLinker.php:71-89 | the `str_contains` test is only a shortcut: `link` is the replacement on every text |
| PrefixLinkers.LinkWords | src/Internal/Service/DOM/PrefixLinker.php:79-86 | one linked word per word |
| PrefixLinkers.ScanWord | src/Internal/Service/DOM/PrefixLinker.php:79-86 | at a word boundary, the word is linked when it starts with the prefix, copied otherwise, and the search goes on at its end |
| PrefixLinkers.ScanWordMatch | src/Internal/Service/DOM/PrefixLinker.php:80-83 | a word starting with the prefix becomes `<a href="URL+rest">prefix+rest</a>` |
| PrefixLinkers.ScanWordCopy | src/Internal/Service/DOM/PrefixLinker.php:80 | a word not starting with the prefix is copied |
| PrefixLinkers.ScanInsideWord | src/Internal/Service/DOM/PrefixLinker.php:80 | an occurrence inside a word is not at a boundary and is copied |
| PrefixLinkers.ScanByWords | src/Internal/Service/DOM/PrefixLinker.php:79-86 | the replacement is the words linked one by one and joined by spaces again |
| PrefixLinkers.LinkByWords | src/Internal/Service/DOM/PrefixLinker.php:71-89 | `link` splits at spaces, links each word that starts with the prefix and joins the words again |
| PrefixLinkers.LinkOneWord | src/Internal/Service/DOM/PrefixLinker.php:77-88 | a single word made of the prefix and a rest becomes the anchor for that rest |
| PrefixLinkers.SlashPrefixNotLinked | src/Internal/Service/DOM/PrefixLinker.php:77-88 | as written, a word behind a prefix that holds `/` is left unchanged, where the intended reading links it |
| PrefixLinkers.LinkTree | src/Internal/Service/DOM/PrefixLinker.php:50-69 | linking the text nodes keeps the shape of the tree |
| PrefixLinkers.LinkTreeAt | src/Internal/Service/DOM/PrefixLinker.php:54-67 | each text node under an `<a>` stays, every other gets every registered prefix linked in turn |
| PrefixLinkers.PrefixLinker.constructor | src/Internal/Service/DOM/PrefixLinker.php:15 | a new linker has no entries |
| PrefixLinkers.PrefixLinker.Register | src/Internal/Service/DOM/PrefixLinker.php:23-26 | the prefix now maps to the normalised URL and every other prefix as before; a new prefix goes last |
| PrefixLinkers.PrefixLinker.LinkText | src/Internal/Service/DOM/PrefixLinker.php:63-65 | every entry, in registration order, links the text in turn |
| PrefixLinkers.PrefixLinker.Run | src/Internal/Service/DOM/PrefixLinker.php:50-69 | the document keeps its shape; text inside an `<a>` stays, every other text node is linked with every entry |

## Left out

- DOM parsing and serialisation (`Support::createDocument`, `extractBodyHTML`, `encode`), XPath queries and `Support::decode` belong to a foreign HTML5 library. The queues take the parse, the serialisation and each service's `run` as function parameters. The widow engine takes `decode` as a parameter. The document is the abstract tree of module `Dom` (elements with a tag and children, text nodes, other nodes).
- `Support::getTextNodes`, which `PrefixLinker::run` calls, is not part of this model. `LinkTree` visits every text node of the tree instead, in document order.
- `Support::containsOnlyWhitespace` is not a named operation of the core and is not modelled.
- The widow engine calls `normalizeWhitespace` of `Internal\Support\Support` (src/Internal/Service/DOM/ShortLastLineAvoider/ShortLastLineAvoider.php:132), and that class is not part of this model. The `Support` module models `normalizeWhitespace` of src/Support/Support.php and takes the two to be the same. The prefix linker uses only `getTextNodes` from that class (see above).
- `\p{L}` and `\p{N}` are approximated by `Text.IsLetter` and `Text.IsNumber` (ASCII, Latin-1, Latin Extended, Greek and Cyrillic letters and ASCII digits). Only the concrete examples depend on the approximation.
- Byte offsets become code-point indices. This agrees with the source on valid UTF-8, where every mark the finders report is one code point. Invalid UTF-8, which makes the `/u` patterns fail, is not modelled.
- `QuoteReplacer::assignRoles` keeps the role of an opener that is never closed, so that opener receives the opening glyph, whereas the stack variants clear such openers. The model follows the code (`QuotesReplacer.UnclosedOpenerReplaced`, `QuotePairing.CountersKeepUnpairedOpeners`).
- PHP's `empty` also holds for the string `"0"`. QuoteParser's segment builder is modelled with it (`QuoteParser.ParsedEmpty`), so `"0"` gives no segment at all. The normaliser's builder tests `=== ''` instead (src/Service/DOM/QuoteNormalizer/QuoteWrapper.php:100) and gives one text segment for `"0"` (`QuoteNormalizer.BuildSegments`).
- QuoteParser.Parse: models `parse` with the candidates in position order, the corrected reading of `findCandidates`. The code as written is `QuoteParser.ParseAsWritten` (see Findings).
- QuoteParser.NestedAsWritten: proved for `"x "x" x"` with any one-letter `x` rather than the literal `"outer "inner" outer"`; the pairing and the segments do not depend on the length of the words.
- QuoteParser.Nested: proved for the same one-letter shape.
- ShortLastLineAvoider.Run: requires `minWordCount >= 2`. With a smaller or null setting the source reads `$words[$wordCount - 2]` out of range, and PHP's warning and null are not modelled. `maxTailLength` is likewise an integer, not nullable.
- ShortLastLineAvoider.Run: `run` rewrites `textContent` in place while iterating the XPath result. The model is a function from tree to tree. Innermost blocks never overlap, so the visiting order does not change the result. Aliasing of DOM nodes is not modelled.
- PrefixLinkers.PrefixLinker.Run: also a tree-to-tree function rather than an in-place rewrite of the text nodes.
- PrefixLinkers.PrefixLinker.LinkText: uses the corrected `link` (see Findings). The code as written is `PrefixLinkers.LinkAsWritten`: with a registered prefix that holds `/`, the source leaves every text node unchanged, where the model links it.
- PrefixLinkers.PrefixLinker.Run: likewise uses the corrected `link` through `LinkText`'s `LinkAll`.
- PrefixLinkers.PrefixLinker.Register: requires a non-empty prefix. With an empty prefix the pattern matches the empty string at every boundary, and PCRE's retry after an empty match is not modelled.
- PrefixLinkers.PrefixLinker.constructor: the linker starts with no entries. In the source `$entries` has no initial value, so running the linker before any `register` throws; this is not modelled.
- A numeric prefix such as `"1"` becomes an integer array key in PHP, and `link` then rejects it under strict types. This is not modelled: prefixes stay strings.
- PrefixLinkers.HasQuery: approximates `parse_url`'s query test as "a `?` before any `#`". URLs for which `parse_url` fails are not modelled.
- `$text` in `link` is matched with `\s` as PCRE's ASCII white space. `PrefixLinkers.LinkByWords` further assumes that the only white space is the plain space.
- The queues' `uasort` is modelled as a stable insertion sort on a sequence (`ServiceQueue.SortByPrio`), not as an in-place sort of a PHP array. The service class name is the key, and which object is registered is an opaque number.
- Each service's `prio()` is a constant of the service: `PrefixLinkers.Prio`, and 0 for the widow engine, which is not modelled separately.
- `Quotes\QuoteReplacer` builds a `Quotes\QuoteFinder` and resets with `Quotes\SingleQuote::all()` and `Quotes\DoubleQuote::all()`; `QuoteStyle::replacer` builds a `QuoteLocalizer\QuoteReplacer`. None of these classes is part of this model. They are assumed to behave like the modelled `QuoteLocalizer` finder (`QuoteFinder`), the variant lists of `QuoteChars` and the modelled `Quotes` replacer (`QuotesReplacer`), which `QuoteStyle.GermanHallo` and `QuoteStyle.EnglishHello` go through.
- The text `wrapQuotes` returns is the reset text for a text without a paired quotation (`QuotesWrapper.UnpairedCurlyOpenerReset`). That such a text keeps its curly marks in the document depends on the DOM orchestrators, which skip a text node without quote segments; they are not part of this model.
- The duplicate and superseded implementations (the regex localizers, the older widow preventer and prefix linker, the `dump`-carrying QuoteParser) and the DOM orchestrators that splice segments into the tree are not part of this model.

## Findings

| source | as written | input that shows it | evidently intended | confidence | as-written member | corrected member |
|---|---|---|---|---|---|---|
| src/Internal/Service/DOM/QuoteNormalizer/QuoteParser.php:102-109 | the candidates are all openers, then all closers, then the default ones, and the stack walk takes them in that order | `a" "b`: the closer at 1 is paired with the opener at 3 after it, giving `a`, Close, ` `, Open, `b` | candidates in position order, so that a closer only pairs with an earlier opener; `a" "b` stays one text segment | not executed; follows from the listed lines | QuoteParser.AsWrittenClosesFirst | QuoteParser.CorrectedKeepsText |
| src/Internal/Service/DOM/PrefixLinker.php:77-80 | `preg_quote($prefix)` is called without the `/` delimiter, so a prefix holding `/` ends the pattern early; the pattern fails to compile and `link` returns the text unchanged | prefix `r/` and text `r/php` | `r/php` becomes `<a href="{url}php">r/php</a>`, `{url}` being the registered URL | not executed; follows from PHP's documented `preg_quote` and delimiter rules | PrefixLinkers.SlashPrefixNotLinked | PrefixLinkers.LinkOneWord |
