# Celebrity correct-name finder, modelled in Dafny

The application reads a spreadsheet of name pairs (columns Original and
Duplicates). It asks a web-grounded language model, row by row, whether the
two names refer to the same person and what that person's correct name is.
It shows the verdicts in a table with the cited web pages, and it exports
them to a new workbook. This project models the logic of that application
and proves what it promises:

- `wrappers.dfy`, `types.dfy`: `Option`/`Result`, and the shared records of
  `types.ts` (`RowData`, the three-valued `AnalysisStatus`, `AnalysisResult`,
  `GroundingChunk` with optional `web` and `maps` parts).
- `strings.dfy`: the JavaScript string built-ins the code relies on (`trim`,
  `toUpperCase`, `toLowerCase`, `split`, `join`, `find`, `includes`,
  `startsWith`, `substring`, number printing), on ASCII.
- `gemini_service.dfy`: the parse of the model's reply in `analyzeNames`.
  The network call is an input: it either failed, or it replied with an
  optional text and the grounding chunks.
- `results_table.dfy`: the table's per-row flags, the Correct Name cell, the
  status badge, and the de-duplicated list of cited pages.
- `excel_parser.dfy`: turning the rows `sheet_to_json` produced (each row
  given as its header/value pairs in key order) into `RowData`, all or
  nothing.
- `run_trace.dfy`: the specification the driver is proved against. It holds
  the capped exponential back-off, and what a run has reached after a given
  sequence of classifier outcomes: results, citations, the rows asked
  about, the waits and the error on screen.
- `app.dfy`: the driver as a class `Analyzer` with the component's state as
  fields. `Analyze` is `handleAnalyze`, a row loop with a nested retry
  loop. `SelectFile` is `handleFileSelect` and `ResetState` is
  `resetState`. Beside the class sit the export
  records of `handleExport`.

The classifier and the user are a scripted environment. `Analyze` is given
the outcomes of its calls in order: each outcome is what `analyzeNames`
resolved with, or the message of the error it threw. It is also given a
`StopPlan`: either no reset at all, or a reset that raises the abort flag
while attempt `j` is under way (the call itself or the sleep after it). The
flag is polled at the top of each row and in the retry condition, as in the
code. Retries are unbounded in the code, so a run whose outcomes run out
returns with `loading` still set. `Classified` turns a sequence of API
replies into such outcomes through `AnalyzeNames`. Sleeping is recorded as
the list of delays waited.

## Model

| member | source | states |
|---|---|---|
| Strings.Trim | services/geminiService.ts:43 | `trim` cuts a run of white space off the start and a run off the end, and keeps the slice between them; that slice starts and ends with a visible character, or is empty |
| Strings.TrimIdempotent | services/geminiService.ts:49 | trimming twice is trimming once |
| Strings.TrimEmptyIffAllSpace | components/ResultsTable.tsx:64 | a string trims to "" exactly when it is all white space |
| Strings.Upper | services/geminiService.ts:43 | `toUpperCase` maps each character by itself and keeps the length |
| Strings.Lower | utils/excelParser.ts:18 | `toLowerCase` maps each character by itself and keeps the length |
| Strings.LowerIdempotent | components/ResultsTable.tsx:64 | lower-casing twice is lower-casing once |
| Strings.TrimLower | components/ResultsTable.tsx:64 | trimming and lower-casing commute |
| Strings.IndexOf | services/geminiService.ts:47 | the index found holds the character and no earlier index does; none is found only when the character is absent |
| Strings.Find | services/geminiService.ts:43 | `find` returns the first element that passes the test; nothing is returned only when none passes |
| Strings.Split | services/geminiService.ts:40 | `split` gives at least one piece, and no piece holds the separator |
| Strings.JoinSplit | services/geminiService.ts:61 | `Join`, the model of `join`: joining the pieces of a split with the separator gives back the string |
| Strings.ContainsAt | services/geminiService.ts:50-51 | `Contains`, the model of `includes`, holds exactly when the text occurs at some position of the string, where `StartsWith` (the model of `startsWith`) holds of the suffix |
| Strings.SplitAtFirst | services/geminiService.ts:47 | the first piece ends at the first separator |
| Strings.AfterFirst | services/geminiService.ts:61 | `split(c).slice(1).join(c)` is everything after the first `c`, with later ones kept |
| Strings.NatToString | App.tsx:93 | a number prints as a non-empty string of digits, which starts with 0 only for the number 0 |
| Strings.NatToStringValue | App.tsx:93 | the digits printed for a number denote that number, so with the leading-digit rule the printed text is the usual decimal one |
| Strings.Take | services/geminiService.ts:78 | `substring(0, n)` is a prefix of at most `n` characters |
| GeminiService.FirstTagLine | services/geminiService.ts:43 | `StartsWith` is the `startsWith` prefix test it applies; the line found is the first whose trimmed, upper-cased form starts with the tag; none is found only when no line does |
| GeminiService.ParseResponse | services/geminiService.ts:68-79 | an accepted reply has status SAME or DIFFERENT; every other reply fails with `FormatErrorMessage`: "Unexpected API response format: " and the first 100 characters of the text, then "..." |
| GeminiService.AnalyzeNames | services/geminiService.ts:39-86 | a success is SAME or DIFFERENT and carries the reply's chunks as its sources; a call that threw an `Error` fails with that error's message; any other thrown value fails with "An unknown API error occurred."; a reply text the parse rejects fails with the format message over that text |
| GeminiService.FirstStatusLineDecides | services/geminiService.ts:43-53 | `StatusFromLines`: only the first status line counts: the reply is accepted exactly when that line names a verdict, and it is accepted with that verdict; a later status line and the fallback never apply |
| GeminiService.StatusIsSecondPiece | services/geminiService.ts:47-51 | `StatusOfLine`: the status value is the piece between the first and second colon; "SAME" is searched first, "DIFFERENT" second |
| GeminiService.SameAnywhereReadsSame | services/geminiService.ts:49-50 | "SAME" in any letter case anywhere in the status value (the piece between the first and the second colon, the line may go on after a second colon) makes the verdict SAME, whatever surrounds it |
| GeminiService.NameAfterFirstColon | services/geminiService.ts:59-61 | `NameOfLine`: the name is everything after the first colon of its line, trimmed, with later colons kept |
| GeminiService.FirstNameLineNames | services/geminiService.ts:56-62 | `NameFromLines`: an accepted reply's name is the name on its first name line, whatever the other lines hold |
| GeminiService.AcceptanceIgnoresName | services/geminiService.ts:56-63 | acceptance does not depend on the name line; without a name line an accepted reply has the name "" |
| GeminiService.BareVerdictFallback | services/geminiService.ts:68-73 | `BareStatus`, the fallback: with no status line, a reply is accepted exactly when its trimmed, upper-cased text is SAME or DIFFERENT, and that text is the verdict |
| GeminiService.ColonRulesOutBareVerdict | services/geminiService.ts:68-73 | a text holding a colon is never a bare verdict |
| GeminiService.EmptyReplyFails | services/geminiService.ts:39 | an empty or missing reply text is an error |
| GeminiService.FormattedLines | services/geminiService.ts:25-27 | a reply in the prompt's two-line format splits into its status line and its name line |
| GeminiService.FormattedStatusLine | services/geminiService.ts:26 | the line "Status: SAME" or "Status: DIFFERENT" is found by the status search, not by the name search, and reads as its verdict |
| GeminiService.FormattedNameLine | services/geminiService.ts:27 | the line "Correct Name: n" is found by the name search, and its name is `n` trimmed |
| GeminiService.ParseFormattedReply | services/geminiService.ts:25-62 | round trip: parsing "Status: s\nCorrect Name: n", with s SAME or DIFFERENT and no newline in n, gives back (s, trim(n)) |
| GeminiService.AnalyzeAcceptedText | services/geminiService.ts:75-76 | a reply text the parse accepts is classified with its verdict and name, and the reply's chunks as the sources |
| GeminiService.AnalyzeFormattedReply | services/geminiService.ts:25-76 | the same round trip through `analyzeNames`, with the reply's chunks as the sources |
| ResultsTable.Normalize | components/ResultsTable.tsx:64 | a normalised name has no white space at either end and no upper-case letter |
| ResultsTable.NormalizeIdempotent | components/ResultsTable.tsx:64 | `normalize` (trim, then lower-case; missing is "") is idempotent |
| ResultsTable.FlagsIgnoreNormalizing | components/ResultsTable.tsx:64-71 | `IsOriginalCorrect` and `IsDuplicateCorrect`: normalising the three names first changes neither flag |
| ResultsTable.BothFlagsAtOnce | components/ResultsTable.tsx:70-71 | both flags can hold at once, for a duplicate that differs from the original only by a leading space |
| ResultsTable.BlankNameNoFlags | components/ResultsTable.tsx:65-71 | a missing, empty or all-blank name sets neither flag |
| ResultsTable.CellIsRawNameOrEmpty | components/ResultsTable.tsx:75-92 | `ShowCorrectName` and `CorrectNameCell`: the Correct Name cell is "" or the raw name, and it is non-empty exactly when the name is to be shown |
| ResultsTable.WhitespaceNameShown | components/ResultsTable.tsx:75-92 | a non-empty name of white space only is shown, untrimmed |
| ResultsTable.MatchedNameHidden | components/ResultsTable.tsx:73-75 | a name that either input matches is not shown |
| ResultsTable.StatusBadge | components/ResultsTable.tsx:10-33 | each verdict gets a badge whose caption, upper-cased, is the verdict's string value |
| ResultsTable.BadgesDistinct | components/ResultsTable.tsx:10-29 | different verdicts get different badges |
| ResultsTable.WebUris | components/ResultsTable.tsx:36 | the URIs kept are exactly the non-empty `web.uri` of the chunks |
| ResultsTable.WebUrisAppend | components/ResultsTable.tsx:36 | the URIs of two runs of chunks are those of the first run followed by those of the second, so their order is the chunk order |
| ResultsTable.Dedup | components/ResultsTable.tsx:36 | `Array.from(new Set(xs))` has no duplicates and the same members as `xs` |
| ResultsTable.UniqueSourcesMembers | components/ResultsTable.tsx:36 | `UniqueSources`: a URI is listed exactly when some chunk cites it as its non-empty web URI |
| ResultsTable.UniqueSourcesDistinct | components/ResultsTable.tsx:36 | no URI is listed twice |
| ResultsTable.NonWebChunkIgnored | components/ResultsTable.tsx:36 | a chunk with only a `maps` part, or with an empty web URI, changes nothing |
| ResultsTable.DedupFirstOccurrenceOrder | components/ResultsTable.tsx:36 | the URIs come in the order of their first occurrences |
| ResultsTable.DedupOfDistinct | components/ResultsTable.tsx:36 | a list without duplicates is its own de-duplication |
| ResultsTable.UniqueSourcesIdempotent | components/ResultsTable.tsx:36 | de-duplicating the list again changes nothing |
| ExcelParser.FindKey | utils/excelParser.ts:18-19 | the key found is the first whose lower-case form is the name; none is found only when no key matches |
| ExcelParser.NormalizeRows | utils/excelParser.ts:17-29 | on success every row is read, in order; on failure the message is the missing-columns one and some row failed |
| ExcelParser.FindKeyValue | utils/excelParser.ts:18-27 | the value read is the one under the first matching key, and only that one |
| ExcelParser.NormalizeRowMeaning | utils/excelParser.ts:17-29 | `NormalizeRow`, one step of the map: a row is read exactly when both columns are there, and then with the values under the first matching keys |
| ExcelParser.NormalizeRowFails | utils/excelParser.ts:21-23 | a row fails exactly when it lacks one of the two columns |
| ExcelParser.ParseRowsFails | utils/excelParser.ts:17-34 | `ParseRows`: the parse fails exactly when some row lacks a column, with "Error parsing file: " and the missing-columns message, and with no partial result |
| ExcelParser.ParseRowsSucceeds | utils/excelParser.ts:17-31 | on success there is one row per sheet row, in order, each read from its own sheet row |
| ExcelParser.OtherColumnIgnored | utils/excelParser.ts:18-19 | a column whose header is not the name leaves the value read under that name unchanged, wherever it stands |
| ExcelParser.OtherColumnKeepsRow | utils/excelParser.ts:18-28 | a column other than the two leaves the row's reading unchanged |
| ExcelParser.HeaderMatching | utils/excelParser.ts:18-19 | the match ignores letter case only: "ORIGINAL" and "Duplicates" match, "Duplicate" and " Original " do not |
| RunTrace.BackoffStep | App.tsx:98 | `NextDelay`, that is `Math.min(delay * 2, 30000)`, moves from the delay of n failures to that of n+1 |
| RunTrace.BackoffBounds | App.tsx:69-98 | every delay lies between 1000 and 30000 |
| RunTrace.BackoffValues | App.tsx:69-98 | `Backoff`: the delays are 1000·2^n up to 16000, and 30000 from the sixth failure on |
| RunTrace.BackoffWholeSeconds | App.tsx:93 | every delay is a whole number of seconds, so `delay/1000` in the message is exact |
| RunTrace.Schedule | App.tsx:96-98 | the waits of a row whose first m attempts fail are the delays for 0 to m-1 failures |
| RunTrace.RetriesAreTrailing | App.tsx:67-72 | failures after a completed row are counted from zero, so `delay` restarts at 1000 for each row |
| RunTrace.RetryWaits | App.tsx:96-98 | a row that fails m times waits 1, 2, 4, 8, 16, 30, 30, ... seconds between its attempts |
| RunTrace.AskedRowsCount | App.tsx:63-74 | attempt k asks about the row after the rows classified before it |
| RunTrace.AskedRowsStart | App.tsx:63 | the first attempt asks about the first row |
| RunTrace.AskedRowsBound | App.tsx:63-72 | every attempt asks about a row already classified or about the row still being retried |
| RunTrace.AskedRowsWithin | App.tsx:63-72 | so no attempt asks about a row past those the run has reached |
| RunTrace.AskedRowsStep | App.tsx:72-88 | a failed attempt is followed by one on the same row, a successful one by one on the next row: the first success ends the row's retries |
| RunTrace.ResultOf | App.tsx:76-80 | a result keeps its row's two names and takes the verdict and name of the classification |
| RunTrace.TrailingFailuresAreFailures | App.tsx:72 | the attempts counted as the row's failures are all failures |
| RunTrace.TrailingFailuresBoundary | App.tsx:72 | the attempt before a row's failures is a success |
| RunTrace.SuccessesFromTrace | App.tsx:74-82 | every recorded classification is the value of a successful attempt |
| RunTrace.Classified | services/geminiService.ts:6-9 | each outcome is what `analyzeNames` gives for its reply |
| RunTrace.RecordedVerdicts | App.tsx:76-80 | when the outcomes come from the classifier, no recorded verdict is ERROR |
| RunTrace.ReachedAtStart | App.tsx:56-61 | at the start nothing is recorded: no results, no sources, no error, and the flag is down |
| RunTrace.SuccessStep | App.tsx:74-89 | a successful attempt appends its result and its sources and clears the error |
| RunTrace.FailureStep | App.tsx:90-93 | `RetryMessage`: a failed attempt shows "Row {i+1}: {msg}. Retrying in {d}s..." with the delay in force before doubling, and records nothing else |
| App.Analyzer.constructor | App.tsx:13-20 | the initial state: no file, no rows, nothing recorded, not loading, progress (0, 0), no error, flag down |
| App.Analyzer.SelectFile | App.tsx:33-49 | selecting a file clears the state, then keeps the parsed rows or shows the parse error; the abort flag is left as it was |
| App.Analyzer.Attempt | App.tsx:73-99 | one attempt: the state moves to what the trace specifies for one more outcome, the wait and next delay follow the back-off |
| App.Analyzer.RunRow | App.tsx:66-100 | the retry loop on a row ends with the row classified, with the flag up after a failure, or with the outcomes run out |
| App.Analyzer.Analyze | App.tsx:53-111 | with no rows nothing changes; otherwise results, sources, error and flag are what the trace specifies (results for rows 0, 1, ... in order, the concatenated sources of the successes, the retry message of a last failure), no call starts once the flag is up, progress is (rows done, number of rows), a run that finishes without reset has every row classified and no error, every call asks about a loaded row, progress never passes the total, and the run is still loading exactly when it was not aborted and some row is unclassified (its outcomes ran out) |
| App.Analyzer.ResetState | App.tsx:22-31 | the file and everything else is cleared, loading stops, and the abort flag is raised |
| App.ExportRows | App.tsx:113-140 | nothing is written without results; otherwise one record per result |
| App.ExportedRecord | App.tsx:131-136 | each record keeps its result's Original, Duplicates and status, "Correct Name Found" is the name or "", and "Correction Needed" and the two YES/NO columns are those of `ExportRecordOf`, which the three rows below tie to the table |
| App.ExportCorrectionMatchesTable | App.tsx:116-135 | `ExportRecordOf`, the record of one result: "Correction Needed" is the table's Correct Name cell for the same result |
| App.ExportOriginalFlagMatchesTable | App.tsx:117-137 | "Is Original Correct" is YES exactly when the table marks the original as correct, and NO otherwise |
| App.ExportDuplicateFlagMatchesTable | App.tsx:117-138 | "Is Duplicate Correct" is YES exactly when the table marks the duplicate as correct, and NO otherwise |

## Left out

- Rendering, the file upload component, drag and drop, the spinner and the icons: they hold no logic.
- The Gemini client, the model name, the API key and the prompt's wording: the network call is an input.
- `XLSX.read`, `sheet_to_json`, `json_to_sheet`, `writeFile` and `FileReader`: library and file I/O. The rows arrive as header/value pairs.
- The error for a non-`Error` value thrown while parsing a file (excelParser.ts line 36): the row loop only throws `Error`s.
- `String(...)` of arbitrary cell values: cells are strings here.
- App.Analyzer.SelectFile: `parseExcelFile` is an input, its resolved rows or its rejection message; the non-`Error` fallback 'Failed to parse file.' cannot arise, since that function only rejects with `Error`s. A selection made while an analysis is running is not interleaved with it.
- App.Analyzer.SelectFile: the selected `File` is held by its name only.
- Real time: sleeps are recorded as the list of delays, and nothing waits.
- Unicode: `trim`, `toUpperCase` and `toLowerCase` are modelled on ASCII white space and letters.
- Strings.Take: counts characters, where `substring` counts UTF-16 code units; they differ only outside the Basic Multilingual Plane.
- `console.error`, the unused `retryCount`, and the `errorMessage` field of a result.
- The `progressPercentage` floating-point division.
- App.Analyzer.Analyze: the reset is modelled only by the abort flag it raises. Its other writes (clearing the data, the results and the progress) are not interleaved with a running analysis. So the model does not show that an attempt under way when the user resets can still write its result, its error and the progress after the clearing.
- App.Analyzer.Analyze: React's asynchronous, batched `setState` is modelled as direct field updates. The functional updates for results and sources are appends.
- App.Analyzer.Analyze: the run cannot be given an unbounded script, because retries are unbounded. A run that uses up its outcomes stops with `loading` still set, where the code would go on retrying.
- App.Analyzer.Analyze: the classifier's outcome for a call does not depend on the row it asked about. `asked` records which row each call asked about.
