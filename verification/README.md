# Contract redline engine — a Dafny model

This project models the pure core of a contract-review application.

**The redline engine.** Its backend takes the main part of a Word document
(`word/document.xml`, WordprocessingML) and an ordered list of proposed
edits. It rewrites the `<w:t>` text runs that hold each edit's target into
`<w:del>`/`<w:ins>` revision markup, in the shape of the revision elements
of section 17.13.5 of ECMA-376 Part 1. Along the way it sorts the edits
into an applied and a failed list, which it logs only as counts. It also
switches on `<w:trackRevisions/>` in the settings part.

**The two smaller cores.**
- The analysis service post-processes the language model's reply:
  - the minimum-length check on the contract text;
  - cutting the JSON array out of the reply;
  - defaulting ids to `clause-N`;
  - the severity summary.
- The review screen keeps a map from analysis id to the reviewer's
  decision, and derives from it:
  - the counts shown above the list;
  - the ids sent for download.

Strings are `seq<char>`. The `.docx` archive is a `map<string, string>`
from part name to part text. The revision timestamp is a parameter. The
JSON parser is a parameter `string -> Option<seq<Analysis>>`.

Modules, in dependency order:

| file | module | what it holds |
|---|---|---|
| `results.dfy` | `Results` | `Option`, `Result` |
| `strings.dfy` | `Strings` | substring search, `indexOf`, `includes`, `trim`, decimal rendering |
| `analyses.dfy` | `Analyses` | the analysis record, JavaScript truthiness of strings, severity counts |
| `xml_escape.dfy` | `XmlEscape` | `escapeXml` as written, a per-character reference, and the decoder an XML reader applies |
| `text_runs.dfy` | `TextRuns` | the `<w:t…>payload</w:t>` scanner and `findTextInXml` |
| `revision_markup.dfy` | `RevisionMarkup` | `createDeletionXml`, `createInsertionXml`, `createRedlineXml` |
| `span_replacer.dfy` | `SpanReplacer` | the global regular-expression replace of `replaceTextWithTrackedChange` |
| `redline.dfy` | `Redline` | `applyChange`, `enableTrackChanges`, and the loop and part handling of `generateRedline` |
| `analyzer.dfy` | `Analyzer` | the post-processing in `analyzeContract` |
| `review.dfy` | `Review` | the decision state and the derived values in `App.jsx` |

## How the code behaves

The model follows the code wherever it departs from a prose description of
it.

- **Every matching element is rewritten.** `replaceTextWithTrackedChange`
  uses a global (`g`) regular expression. Every `<w:t>` element whose
  payload holds the target is rewritten, not only the first one. All of
  them carry the same two revision ids.
- **The last occurrence inside an element.** The group before the target is
  greedy, so inside one element it is the last occurrence that is replaced
  (`SpanReplacer.MatchTakesLastOccurrence`).
- **A missing target is a failure, not an error.** A change whose target is
  not in a single run lands in the internal failed list; nothing is thrown.
  - This includes a target the locator finds only by joining runs
    (`SpanReplacer.SplitRunsNeverReplaced`).
  - The located text is replaced by the change's deletion and insertion,
    not by the search text.
- **The rendered change is literal markup.** The replacement is built by a
  callback, so the text it returns is inserted literally.
- **The `g` flag is modelled in general.**
  - The target may hold `<`. The match at a position is then the
    leftmost-greedy one that backtracking finds (`SpanReplacer.MatchAt`).
  - For targets without `<`, the match is proved to be "a `<w:t>` element
    whose payload contains the target" (`SpanReplacer.PatternIsRunWithTarget`).

## Model

| member | source | states |
|---|---|---|
| XmlEscape.EscapeXmlIsCharwise | production/backend/src/services/redlineGenerator.js:26-33 | the chain of five global replacements equals escaping each character on its own, in order: `&`, `<`, `>`, `"` become their entities, `'` becomes `&#x2019;`, every other character is kept |
| XmlEscape.EscapeXmlSingle | production/backend/src/services/redlineGenerator.js:27-32 | because `&` is replaced first and no entity holds a character a later step rewrites, each character is escaped exactly once (nothing is double-escaped) |
| XmlEscape.EscapeXmlEscaped | production/backend/src/services/redlineGenerator.js:26-33 | the escaped text holds no `<`, `>`, `"` or `'`, and every `&` in it begins one of the five references the escaper emits |
| XmlEscape.EscapeXmlPlain | production/backend/src/services/redlineGenerator.js:26-33 | text without `&`, `<`, `>`, `"` or `'` passes through unchanged |
| XmlEscape.EscapeXmlConcat | production/backend/src/services/redlineGenerator.js:26-33 | escaping a concatenation is the concatenation of the escapes |
| XmlEscape.UnescapeEscapeXml | production/backend/src/services/redlineGenerator.js:27-32 | decoding the references in the escaped text gives back the original, except that each apostrophe reads as U+2019 |
| RevisionMarkup.RedlineShape | production/backend/src/services/redlineGenerator.js:54-66 | the combined markup is empty exactly when both texts are empty; with a deletion it opens with `<w:del w:id="base" w:author="Claude" …>`, and with only an insertion it opens with `<w:ins w:id="base+1" …>` |
| RevisionMarkup.DeletionInvisible | production/backend/src/services/redlineGenerator.js:38-41 | a deletion block starts no `<w:t` element: deleted text never shows as document text |
| RevisionMarkup.InsertionNotDeleted | production/backend/src/services/redlineGenerator.js:46-49 | an insertion block starts no `<w:delText` element |
| RevisionMarkup.DeletionReads | production/backend/src/services/redlineGenerator.js:38-41 | a deletion block placed anywhere reads as its escaped text in `<w:delText>` and as nothing in `<w:t>` |
| RevisionMarkup.InsertionReads | production/backend/src/services/redlineGenerator.js:46-49 | an insertion block placed anywhere reads as its escaped text in `<w:t>` and as nothing in `<w:delText>` |
| RevisionMarkup.RedlineReads | production/backend/src/services/redlineGenerator.js:54-66 | the combined markup placed anywhere reads as the escaped insertion in `<w:t>` and the escaped deletion in `<w:delText>`, each present only when non-empty |
| RevisionMarkup.RedlineReadsBack | production/backend/src/services/redlineGenerator.js:54-66 | a reader of the combined markup sees exactly the inserted text as document text and the deleted text as removed text (apostrophes typographic) |
| TextRuns.ElementUnique | production/backend/src/services/redlineGenerator.js:79 | `<w:t[^>]*>([^<]*)</w:t>` can match at a position in at most one way |
| TextRuns.TextFromAtElement | production/backend/src/services/redlineGenerator.js:79-85 | where an element starts, the scan collects its payload and resumes after its end tag |
| TextRuns.TextFromNoElement | production/backend/src/services/redlineGenerator.js:83-85 | where no element starts, the scan moves on by one character |
| TextRuns.TextFromFree | production/backend/src/services/redlineGenerator.js:79-85 | the concatenated run text never holds `<` |
| TextRuns.FindTextInXml | production/backend/src/services/redlineGenerator.js:72-92 | found directly exactly when the raw markup contains the target; found in runs exactly when it does not but the concatenated run text does; not found otherwise |
| TextRuns.MarkupTargetNeverInRuns | production/backend/src/services/redlineGenerator.js:72-92 | a target holding `<` is never found only in the runs |
| SpanReplacer.LastCandidate | production/backend/src/services/redlineGenerator.js:104 | the greedy group before the target settles on the rightmost position where the target occurs and the rest of the payload runs into a `<` |
| SpanReplacer.MatchAt | production/backend/src/services/redlineGenerator.js:103-106 | a match found at a position is a way the pattern matches there |
| SpanReplacer.PatternAtShape | production/backend/src/services/redlineGenerator.js:104 | every match ends the open tag at its first `>`, puts the target no later than the payload's first `<`, and ends at the first `<` after the target |
| SpanReplacer.MatchAtComplete | production/backend/src/services/redlineGenerator.js:103-106 | a match is found at a position exactly when the pattern can match there, and its target lies as far right as in any match |
| SpanReplacer.PatternIsRunWithTarget | production/backend/src/services/redlineGenerator.js:104 | for a target without `<`, the pattern matches exactly the `<w:t>` elements whose payload holds the target, cut around one occurrence |
| SpanReplacer.MatchTakesLastOccurrence | production/backend/src/services/redlineGenerator.js:104 | inside a matched element, no occurrence of the target lies after the one replaced |
| SpanReplacer.ReplaceTextWithTrackedChange | production/backend/src/services/redlineGenerator.js:98-132 | a replacement implies the target occurs in the markup; without one the markup is returned unchanged |
| SpanReplacer.ReplacedIffPattern | production/backend/src/services/redlineGenerator.js:108-110 | `replaced` is set exactly when the pattern matches somewhere |
| SpanReplacer.ReplacedContains | production/backend/src/services/redlineGenerator.js:108-110 | a replacement needs the target to occur literally in the markup |
| SpanReplacer.ReplacedIffRunContains | production/backend/src/services/redlineGenerator.js:98-132 | for a target without `<`, a replacement happens exactly when some `<w:t>` element's payload contains the target |
| SpanReplacer.SplitRunsNeverReplaced | production/backend/src/services/redlineGenerator.js:98-132 | a target the locator finds only by joining runs is never replaced |
| SpanReplacer.ReplaceFromCopies | production/backend/src/services/redlineGenerator.js:109-129 | text at positions where the pattern does not match is copied unchanged: all text outside matched elements is preserved |
| SpanReplacer.MatchPieces | production/backend/src/services/redlineGenerator.js:109 | the groups of a match split the element's payload into the text before, the target, and the text after, and neither side holds `<` |
| SpanReplacer.RedlineRewriteReads | production/backend/src/services/redlineGenerator.js:113-128 | the rewrite of one element (kept text before, the revision markup, kept text after) reads as the text before, the escaped insertion and the text after |
| SpanReplacer.MatchRewriteReads | production/backend/src/services/redlineGenerator.js:109-129 | each matched element is rewritten into text that reads as its old payload with the target occurrence swapped for the escaped insertion |
| Redline.SearchTextOf | production/backend/src/services/redlineGenerator.js:138 | the search text is the location's text when that is non-empty, otherwise the deletion text |
| Redline.SearchTextMissing | production/backend/src/services/redlineGenerator.js:138-143 | a change lacks search text exactly when both its location text and its deletion are missing or empty |
| Redline.ApplyChange | production/backend/src/services/redlineGenerator.js:137-169 | a change without search text, or whose text the locator cannot find, is not applied; an unapplied change leaves the markup unchanged; an applied one had its search text in the markup |
| Redline.ApplyChangeIsReplace | production/backend/src/services/redlineGenerator.js:153-168 | for a change with search text, `applied` and the content are exactly the replace's: the locator never changes the outcome |
| Redline.AppliedIffRunContains | production/backend/src/services/redlineGenerator.js:137-169 | for a search text without `<`, a change is applied exactly when some `<w:t>` element's payload contains it |
| Redline.EnableTrackChanges | production/backend/src/services/redlineGenerator.js:174-184 | settings already mentioning `<w:trackRevisions` or lacking `</w:settings>` are unchanged; otherwise `<w:trackRevisions/>` is inserted right before the first `</w:settings>` |
| Redline.EnableTrackChangesEnables | production/backend/src/services/redlineGenerator.js:174-184 | settings with a closing tag mention `<w:trackRevisions` afterwards |
| Redline.EnableTrackChangesIdempotent | production/backend/src/services/redlineGenerator.js:174-184 | enabling twice is the same as enabling once |
| Redline.Step | production/backend/src/services/redlineGenerator.js:210-225 | a change with neither deletion nor insertion is skipped; any other lands in the applied list exactly when `applyChange` on the current document and counter applies it, in the failed list otherwise; the counter grows by two on success and stays put on failure; a failed change leaves the document unchanged; an applied one replaces with the current counter as base id |
| Redline.StepAppliedIffRunContains | production/backend/src/services/redlineGenerator.js:216-224 | for a search text without `<`, a non-trivial change lands in the applied list exactly when some `<w:t>` element of the current document holds its search text |
| Redline.OutcomesAt | production/backend/src/services/redlineGenerator.js:210-225 | the outcome recorded for the change at position k is what `applyChange` returns on the document and counter the first k changes left |
| Redline.StepsCounter | production/backend/src/services/redlineGenerator.js:206-225 | the counter grows by two per applied change, so the k-th applied change uses ids `2k+1` and `2k+2` from a start at 1 |
| Redline.StepsPartition | production/backend/src/services/redlineGenerator.js:207-225 | the applied list is the ids of the non-trivial changes `applyChange` applied, and the failed list the ids of the other non-trivial changes, each in input order |
| Redline.StepsNothingApplied | production/backend/src/services/redlineGenerator.js:216-217 | when nothing is applied, the document is byte-identical |
| Redline.GenerateRedline | production/backend/src/services/redlineGenerator.js:189-242 | an empty change list and a missing `word/document.xml` are refused, in that order; otherwise the archive keeps its part names, the document part becomes the loop's final document, the lists are the loop's, every part but the document and the settings is unchanged, the settings part gets tracking switched on, and without applied changes the document is unchanged |
| Redline.GenerateRedlineOutcome | production/backend/src/services/redlineGenerator.js:206-225 | change by change: the applied list holds, in input order, the ids of the non-trivial changes `applyChange` applies to the document as the earlier changes left it, the failed list the others, and the counter ends at `1 + 2 × applied` |
| Strings.IndexOf | production/backend/src/services/redlineGenerator.js:178-181 | `indexOf` finds an occurrence exactly when there is one, and it is the first |
| Strings.Trim | production/backend/src/services/analyzer.js:124 | `trim()` returns a slice that drops only white space at either end, and starts and ends with non-space characters |
| Analyzer.ContractTextAcceptedIff | production/backend/src/services/analyzer.js:124-126 | a contract text is accepted exactly when its first and last non-space characters are at least 100 characters apart, counting both |
| Analyzer.BracketedSpan | production/backend/src/services/analyzer.js:97-100 | no span exactly when no `[` has a `]` after it; otherwise the span runs from the first such `[` to the last `]`, covering every bracket pair |
| Analyzer.ParseAnalysisResponse | production/backend/src/services/analyzer.js:95-107 | the reply is refused for lack of an array exactly when it has no bracket pair, and as invalid JSON exactly when the parser rejects the span; otherwise the result is the parse of the span |
| Analyzer.Identify | production/backend/src/services/analyzer.js:166-169 | an analysis keeps every field but the id, and its id is non-empty afterwards |
| Analyzer.DefaultIdInjective | production/backend/src/services/analyzer.js:168 | `clause-N` ids of different positions differ |
| Analyzer.WithIdsIdentify | production/backend/src/services/analyzer.js:166-169 | processing keeps length, order and every field but the id; a non-empty id is kept, an empty one becomes `clause-(index+1)`; if the reply gave no ids, the new ids are pairwise distinct |
| Analyzer.WithIdsCounts | production/backend/src/services/analyzer.js:166-177 | id defaulting changes no severity count |
| Analyzer.SeverityCountsBound | production/backend/src/services/analyzer.js:172-177 | red + yellow + green never exceeds the list length, and equals it exactly when every severity is one of the three |
| Analyzer.Summarize | production/backend/src/services/analyzer.js:172-177 | `total` is the list length, `red`, `yellow` and `green` are the numbers of analyses with exactly that severity, and they add up to at most `total`, to exactly `total` when all severities are known |
| Analyzer.AnalyzeContract | production/backend/src/services/analyzer.js:112-192 | a short contract is refused exactly then; a reply failure is passed on; a success holds the parsed list with ids defaulted (same order, same other fields), every id non-empty, and the summary counts of the parsed severities |
| Review.HandleDecision | production/frontend/src/App.jsx:299-309 | `null` removes the id, a decision sets it, and no other key is added, removed or changed |
| Review.DecideAll | production/frontend/src/App.jsx:311-329 | accept-all and reject-all build a fresh map holding exactly the ids of analyses with a deletion, each mapped to the one decision |
| Review.HandleConsistent | production/frontend/src/App.jsx:170-205 | every event of the screen (a decision button, which only analyses with a deletion show; accept-all; reject-all; clearing) keeps every key the id of an analysis with a deletion |
| Review.DecidedSplit | production/frontend/src/App.jsx:218-219 | the accepted and rejected counts add up to the number of decided ids |
| Review.PendingNonNegative | production/frontend/src/App.jsx:218-220 | with every key the id of an analysis with a deletion, the pending count is never negative |
| Review.AcceptAllLeavesNothingPending | production/frontend/src/App.jsx:311-319 | with distinct ids, nothing is pending after accept-all |
| Review.BumpCounts | production/frontend/src/App.jsx:214 | one more severity adds one to its own count and to the total and leaves the other counts alone |
| Review.SeverityTallyCounts | production/frontend/src/App.jsx:213-216 | each severity's count is its number of analyses, no severity is listed twice, and the counts add up to the number of analyses |
| Review.WithDecisionCounts | production/frontend/src/App.jsx:363-364 | the filter keeps every copy of an analysis with the decision and no copy of any other |
| Review.WithDecisionMembers | production/frontend/src/App.jsx:363-364 | an analysis is listed under a decision exactly when it is on screen and decided that way |
| Review.WithDecisionInOrder | production/frontend/src/App.jsx:363-364 | the filtered list is the analyses at strictly increasing positions, and every position decided that way is among them |
| Review.AcceptedRejectedDisjoint | production/frontend/src/App.jsx:363-364 | no analysis is both accepted and rejected |
| Review.DownloadRequest | production/frontend/src/App.jsx:331-339 | no request exactly when no analysis is accepted; otherwise every id sent is accepted |
| Review.DownloadRequestInOrder | production/frontend/src/App.jsx:332-334 | the ids sent are those of the accepted analyses, in screen order, with none left out |

## Left out

- Archive handling:
  - AdmZip reading and writing, `Buffer`/UTF-8 conversion and `zip.toBuffer()` are foreign calls.
  - The archive is a `map<string, string>` of already decoded part texts.
- The clock:
  - `getWordTimestamp` reads the wall clock, so the date is the parameter `date`.
  - The source reads the clock once per block. The model uses one date for the whole call.
  - The date is assumed to hold no `<`, as an ISO-8601 timestamp never does.
- Logging: the `console` output in `applyChange` and `generateRedline` does not affect results.
- `generateRedlineFromScratch` only throws.
- `generateRedline` input: a missing change list (`!changes`) is modelled as the empty list. Both raise the same error.
- Assumed record shape: every change is taken to have its `redline` object. The source would throw a `TypeError` on a change without one.
- The analyzer's foreign calls:
  - mammoth text extraction, prompt building, the model API call, `uuid` and the metadata dates;
  - `JSON.parse`, which is the parameter `parse` (`None` for a throw).
- Text and Unicode:
  - JavaScript strings are UTF-16 code units, and a Dafny `char` is a Unicode scalar value.
  - Surrogate pairs are not modelled.
  - `trim()` uses the fixed ECMAScript white-space and line-terminator set in `Strings.IsSpace`.
- Not covered:
  - the HTTP server, the fetch client, the browser download, the default playbook text;
  - all JSX rendering.
  - Rendering enters only through the fact that decision buttons exist only for analyses with a deletion (`Review.Handle`).
- The download request body and the blob download are network and browser effects. The model returns the id list that would be sent.
- Results of `generateRedline`: the source returns only the archive and logs the applied and failed lists as counts. The model also returns the two lists (`Redline.Redlined`), so that the outcome of each change can be stated.
- Revision id uniqueness:
  - All elements rewritten for one change carry the same pair of revision ids.
  - The model states this behaviour and proves no uniqueness of `w:id` values across the document.
