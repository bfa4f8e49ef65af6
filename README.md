# Dashboard webhook: a Dafny model

`dashboard-webhook.js` is a browser script that polls a published spreadsheet
export. It decides from a stored "last change marker" whether the export has
changed. When it has, it re-renders two charts, two counters and a table of the
most recent rows. This project models what sits under the network, timer and DOM
plumbing. That covers the text parser, the marker extraction, the change-detection
step with its one persisted field, and the views pushed to the four sinks.

Modules, one file each:

- `strings.dfy` (`Strings`): the JavaScript string primitives the script relies on.
  - `split` with a one-character separator, with its round trip through `join`.
  - `trim`, over the ECMAScript WhiteSpace and LineTerminator characters.
  - The relational `>` on strings.
- `csv.dfy` (`Csv`): the two pure functions.
  - `parseCSV`, as `ParseCsv`: the header line is zipped against every later line.
  - `getLatestTimestamp`, as `LatestMarker`: the first cell of the last line of the trimmed text.
- `aggregates.dfy` (`Aggregates`): the derived views.
  - The clean-or-legacy column fallback.
  - Per-officer and per-(mandal, panchayat) counts. The counting loop is the method `CountKeys`, proved against the function `Tally`.
  - The row total, the attachment count and the attachment percentage.
  - The "recent" table: the last 20 rows, newest first.
- `dashboard.dfy` (`Dashboard`): the class `DashboardWebhookHandler`.
  - The field `lastMarker` stands for `localStorage['lastDashboardUpdate']`. The empty string stands for "absent"; line 19 treats both alike.
  - The chart, counter and table sinks are fields. The methods update them in place.

Two consequences of the script as written:

- The two-visit export `"Timestamp,Officer_Name_Clean\n2024-01-01,Alice\n2024-01-02,Bob\n"` gives three rows, not two.
  - Line 44 splits the final newline off as a last, empty line, and that line becomes an all-empty row.
  - The export has no `Name of the Officer` column, so that row has no officer name. The officer chart counts it under the key "undefined", and the total counts it too.
  - `Aggregates.TwoVisitExample` states the three rows, the marker "2024-01-02" and the counts {Alice: 1, Bob: 1, "undefined": 1}.
- With no rows, line 81 computes `0/0`, which gives `NaN`. The model keeps that as `Percent.NaN`.

Two JavaScript conversions are kept explicitly:

- A row without a column reads as `undefined`, modelled as `Cell.Undefined`.
- As an object key or a template slot, `undefined` becomes the text "undefined".

## Model

| member | source | states |
|---|---|---|
| Strings.IsWhitespace | dashboard-webhook.js:30 | the characters `trim()` removes, ECMAScript WhiteSpace and LineTerminator; used by Strings.TrimStartSpec and Strings.TrimEndSpec |
| Strings.Split | dashboard-webhook.js:44-47 | `split` with one separator yields at least one piece, no piece contains the separator, and joining the pieces with it gives back the text |
| Strings.SplitJoin | dashboard-webhook.js:44-47 | round trip: separator-free pieces are recovered by splitting their join |
| Strings.SplitNoSeparator | dashboard-webhook.js:32 | text without the separator splits into itself alone |
| Strings.SplitAfterPiece | dashboard-webhook.js:44-47 | a separator-free prefix followed by the separator becomes the first piece, and the rest splits on its own |
| Strings.SplitCount | dashboard-webhook.js:44 | there is exactly one piece more than there are separators |
| Strings.SplitTrailingSeparator | dashboard-webhook.js:44 | a separator at the end adds exactly one empty last piece |
| Strings.SplitFirstPiece | dashboard-webhook.js:32 | the first piece is the prefix before the first separator, or the whole text |
| Strings.SplitLastPiece | dashboard-webhook.js:30-31 | the last piece is the suffix after the last separator, or the whole text |
| Strings.JoinLast | dashboard-webhook.js:30-31 | a join of two or more pieces ends with the separator and the last piece |
| Strings.Join | dashboard-webhook.js:44-47 | `join(sep)`, the inverse that Strings.Split and Strings.SplitJoin state their round trips against |
| Strings.TrimStartSpec | dashboard-webhook.js:30 | trimming the start removes exactly the leading whitespace run: what is left is a suffix starting with a non-whitespace character |
| Strings.TrimEndSpec | dashboard-webhook.js:30 | trimming the end removes exactly the trailing whitespace run |
| Strings.TrimFactor | dashboard-webhook.js:30 | `trim()` is a factor of the text with only whitespace around it and no whitespace at either of its ends |
| Strings.TrimUnchanged | dashboard-webhook.js:49 | text with no whitespace at either end is left unchanged by `trim()` |
| Strings.Trim | dashboard-webhook.js:30 | `trim()`, also applied at line 49; characterised by Strings.TrimFactor, Strings.TrimUnchanged and Strings.TrimIdempotent (with Strings.TrimStart and Strings.TrimEnd by Strings.TrimStartSpec and Strings.TrimEndSpec) |
| Strings.TrimStart | dashboard-webhook.js:30 | the leading half of `trim()`; characterised by Strings.TrimStartSpec |
| Strings.TrimEnd | dashboard-webhook.js:30 | the trailing half of `trim()`; characterised by Strings.TrimEndSpec |
| Strings.TrimIdempotent | dashboard-webhook.js:30 | trimming twice is the same as trimming once |
| Strings.LexLess | dashboard-webhook.js:19 | string `<`, the order behind `currentUpdate > lastUpdate`; proved a strict total order by Strings.LexLessIrreflexive, Strings.LexLessTransitive and Strings.LexLessTotal, and equal to the first-difference definition by Strings.LexLessFirstDifference |
| Strings.LexLessIrreflexive | dashboard-webhook.js:19 | no marker is greater than itself |
| Strings.LexLessTransitive | dashboard-webhook.js:19 | string `>` is transitive |
| Strings.LexLessTotal | dashboard-webhook.js:19 | any two different strings are ordered one way or the other |
| Strings.LexLessFirstDifference | dashboard-webhook.js:19 | `a < b` iff `a` is a proper prefix of `b`, or `a` has the smaller character at the first position where they differ |
| Strings.LexLessWitness | dashboard-webhook.js:19 | the "only if" half of that characterisation |
| Strings.PrefixLexLess | dashboard-webhook.js:19 | a proper prefix comes first |
| Strings.DifferenceLexLess | dashboard-webhook.js:19 | a smaller character at the first difference comes first |
| Csv.ParseCsv | dashboard-webhook.js:43-53 | `parseCSV`; characterised by Csv.ParseCsvRowCount (one row per '\n'), Csv.ParsedRow (row `r` is line `r + 1` zipped against the header), Csv.ParsedRowKeys, Csv.ParsedRowValue and Csv.TrailingNewlineRow |
| Csv.ParseRow | dashboard-webhook.js:47-51 | one line zipped against the header cells; characterised through Csv.RowPrefix |
| Csv.RowPrefix | dashboard-webhook.js:48-51 | the `reduce` accumulator after the first `n` header cells; its keys are stated by Csv.RowPrefixKeys, its values by Csv.RowPrefixValue, its size by Csv.RowPrefixFieldCount |
| Csv.CellValue | dashboard-webhook.js:49 | `vals[i]?.trim() \|\| ''`: the trimmed cell, or "" when the line has no cell `i`; used in Csv.RowPrefixValue and Csv.ParsedRowValue |
| Csv.HeaderCells | dashboard-webhook.js:44-45 | the untrimmed header cells `header.split(',')`; used by Csv.ParsedRow and Csv.ParsedRowKeys |
| Csv.LatestMarker | dashboard-webhook.js:29-33 | `getLatestTimestamp`; characterised by Csv.LatestMarkerPosition, Csv.HeaderOnlyMarker and Csv.TwoLineExportMarker |
| Csv.HeaderNames | dashboard-webhook.js:45-49 | there is one trimmed name per header cell |
| Csv.ParseCsvRowCount | dashboard-webhook.js:44-46 | there are exactly as many rows as '\n' characters in the text, counting blank lines and a trailing newline |
| Csv.RowPrefixKeys | dashboard-webhook.js:48-51 | the reduce has a key exactly for each trimmed header name seen so far |
| Csv.RowPrefixValue | dashboard-webhook.js:48-51 | a name holds the trimmed cell of its last header cell, so a later duplicate name overwrites an earlier one |
| Csv.RowPrefixCellsAgree | dashboard-webhook.js:47-51 | the row depends only on the cells under the header, not on cells beyond them |
| Csv.RowPrefixIgnoresExtraCells | dashboard-webhook.js:47-51 | cells beyond the header count are ignored |
| Csv.RowPrefixFieldCount | dashboard-webhook.js:48-51 | with distinct trimmed header names, every row has exactly one field per header cell |
| Csv.ParsedRow | dashboard-webhook.js:44-51 | row `r` is line `r + 1` zipped against the header cells |
| Csv.ParsedRowKeys | dashboard-webhook.js:45-51 | the key set of every parsed row is the set of trimmed header names |
| Csv.ParsedRowValue | dashboard-webhook.js:47-49 | field `i` of every row is the trimmed cell `i`, or "" when the line has no such cell. This holds when no later header has the same trimmed name |
| Csv.TrailingNewlineRow | dashboard-webhook.js:44-49 | a trailing newline adds a last row whose every field is "" |
| Csv.EmptyLineRow | dashboard-webhook.js:47-49 | an empty line zips to a row whose every field is "" |
| Csv.LatestMarkerPosition | dashboard-webhook.js:29-33 | the marker starts the last line of the trimmed text and runs to that line's first ',' or its end, so it holds no ',' and no '\n' |
| Csv.FirstFieldOfLastLine | dashboard-webhook.js:30-32 | the same, stated for any already-trimmed text |
| Csv.LastLine | dashboard-webhook.js:30-31 | the last line is the text after the last '\n' |
| Csv.FirstField | dashboard-webhook.js:32 | the first cell is the line before its first ',' |
| Csv.HeaderOnlyMarker | dashboard-webhook.js:29-33 | when the trimmed text has no '\n', the marker is its first ','-cell |
| Csv.SplitPair | dashboard-webhook.js:47 | `a,b` splits into `[a, b]` when neither holds ',' |
| Csv.SplitThreeLines | dashboard-webhook.js:44 | three lines, with and without a final '\n', split into three or four pieces |
| Csv.PairRow | dashboard-webhook.js:47-51 | a two-column header and a line `a,b` make the row {h1: a, h2: b} |
| Csv.EmptyPairRow | dashboard-webhook.js:47-51 | an empty line under a two-column header makes the row {h1: "", h2: ""} |
| Csv.ThreeLineRows | dashboard-webhook.js:44-46 | a header line, two data lines and an empty tail give three rows, the last from the empty line |
| Csv.TwoLineExportRows | dashboard-webhook.js:43-53 | a two-column export with two newline-terminated lines parses to the two rows plus an all-empty third row |
| Csv.TwoLineExportMarker | dashboard-webhook.js:29-33 | for that export, the marker is the first cell of the last data line |
| Csv.TrimFinalNewline | dashboard-webhook.js:30 | `trim()` removes a final newline after text with no whitespace at either end |
| Aggregates.Lookup | dashboard-webhook.js:58 | `r[name]`: the cell text, or `undefined` when the row has no such key |
| Aggregates.Truthy | dashboard-webhook.js:58 | JavaScript truthiness of a cell: only non-empty text; the test Aggregates.Fallback states its contract with |
| Aggregates.Show | dashboard-webhook.js:59 | a cell as an object key or template slot: `undefined` becomes "undefined" (used by Aggregates.CleanOnlyOfficer and Aggregates.TwoVisitExample) |
| Aggregates.Fallback | dashboard-webhook.js:58 | `clean \|\| legacy` is truthy iff one of the two cells is truthy. It gives the clean text when that is non-empty, and otherwise the legacy cell, which may be "" or `undefined` |
| Aggregates.OfficerName | dashboard-webhook.js:58 | the key a row is counted under; Aggregates.OfficerCountsCoverRows states that each row is counted once under it |
| Aggregates.CoverageKey | dashboard-webhook.js:69 | mandal, U+2013, then clean-or-legacy panchayat; Aggregates.CoverageCountsCoverRows states that each row is counted once under it |
| Aggregates.OfficerNames | dashboard-webhook.js:57-58 | there is one officer key per row |
| Aggregates.CoverageKeys | dashboard-webhook.js:68-69 | there is one coverage key per row |
| Aggregates.Tally | dashboard-webhook.js:56-60 | the `counts` object after the `forEach`; characterised by Aggregates.TallyCounts and Aggregates.TallySum, and computed by the loop Aggregates.CountKeys |
| Aggregates.OfficerCounts | dashboard-webhook.js:55-60 | the officer chart's counts; characterised by Aggregates.OfficerCountsCoverRows |
| Aggregates.CoverageCounts | dashboard-webhook.js:66-71 | the coverage chart's counts; characterised by Aggregates.CoverageCountsCoverRows |
| Aggregates.MapSum | dashboard-webhook.js:62 | the sum of `Object.values(counts)`; Aggregates.MapSumRemove lets any key's count be taken out |
| Aggregates.MapSumRemove | dashboard-webhook.js:62 | any key's count can be taken out of the sum of the values |
| Aggregates.TallyCounts | dashboard-webhook.js:56-60 | the `counts` object has a key exactly for each key seen, whose value is its number of occurrences |
| Aggregates.TallySum | dashboard-webhook.js:56-60 | the counts add up to the number of keys counted |
| Aggregates.CountKeys | dashboard-webhook.js:56-60 | the `forEach` loop builds the tally: key set, per-key occurrence counts, and a sum equal to the number of keys |
| Aggregates.OfficerCountsCoverRows | dashboard-webhook.js:55-62 | each row is counted once under its clean-or-legacy officer name. An officer appears iff some row names them, with the number of rows naming them, and the counts sum to the row count |
| Aggregates.CoverageCountsCoverRows | dashboard-webhook.js:66-73 | the same for the mandal–panchayat keys |
| Aggregates.HasAttachment | dashboard-webhook.js:79 | the `filter` test `r['Attachments']` is truthy |
| Aggregates.AttachedCount | dashboard-webhook.js:79 | `attached <= total`. It equals `total` iff every row has a non-empty `Attachments`, and is 0 iff none has |
| Aggregates.AttachedIndices | dashboard-webhook.js:79 | the indices of the rows `filter` keeps; its size is `attached` by Aggregates.AttachedCountIndices |
| Aggregates.AttachedCountIndices | dashboard-webhook.js:79 | `attached` is exactly the number of rows whose `Attachments` is non-empty (the size of Aggregates.AttachedIndices) |
| Aggregates.Percentage | dashboard-webhook.js:81 | `NaN` iff there are no rows. Otherwise a whole number at most 100, within half a unit of `100 * attached / total` (halves rounded up) |
| Aggregates.RoundedBounds | dashboard-webhook.js:81 | the rounded quotient is at most 100 and within half a unit of the exact rate |
| Aggregates.Last | dashboard-webhook.js:87 | `data.slice(-20)`; its length and elements are stated by Aggregates.RecentTableAt |
| Aggregates.Reverse | dashboard-webhook.js:87 | `reverse()`; characterised by Aggregates.ReverseAt |
| Aggregates.Recent | dashboard-webhook.js:87 | `data.slice(-20).reverse()`; characterised by Aggregates.RecentTableAt |
| Aggregates.DisplayRow | dashboard-webhook.js:89-97 | the seven template cells of one table row; characterised by Aggregates.DisplayRowOfficer |
| Aggregates.RecentTable | dashboard-webhook.js:86-99 | the table body after the refill; characterised by Aggregates.RecentTableAt |
| Aggregates.ReverseAt | dashboard-webhook.js:87 | `reverse()` keeps the length and puts element `n-1-i` at position `i` |
| Aggregates.RecentTableAt | dashboard-webhook.js:87-97 | the table has `min(20, n)` rows, and row `i` displays `data[n-1-i]` (newest first). Each row has 7 cells, and the officer cell shows the chart's name for that row |
| Aggregates.DisplayRowOfficer | dashboard-webhook.js:89-96 | a table row has the seven template cells, and its officer cell uses the same fallback as the officer chart |
| Aggregates.TallyDistinctThree | dashboard-webhook.js:56-60 | three distinct keys are each counted once |
| Aggregates.CleanOnlyOfficer | dashboard-webhook.js:58 | with only an `Officer_Name_Clean` column, a row is counted under that cell, or under "undefined" when the cell is empty |
| Aggregates.TwoVisitOfficerCounts | dashboard-webhook.js:55-60 | two visits by different officers plus the trailing empty row count {b1: 1, b2: 1, "undefined": 1} |
| Aggregates.TwoVisitExample | dashboard-webhook.js:29-60 | the two-visit export gives 3 rows, marker "2024-01-02" and officer counts {Alice: 1, Bob: 1, "undefined": 1} |
| Dashboard.UpdateDue | dashboard-webhook.js:19 | `!lastUpdate \|\| currentUpdate > lastUpdate`; characterised by Dashboard.UpdateDueIff |
| Dashboard.UpdateDueIff | dashboard-webhook.js:19 | with no stored marker an update is always due. Otherwise it is due iff the new marker is neither equal to nor before the stored one, so a repeated marker never re-renders |
| Dashboard.DashboardWebhookHandler.constructor | dashboard-webhook.js:3-6 | the handler starts from the stored marker and the sinks it finds on the page |
| Dashboard.DashboardWebhookHandler.CheckForUpdates | dashboard-webhook.js:13-27 | a failed fetch changes nothing. An update that is not due changes nothing. A due update renders the fetched text, and the marker is written iff rendering did not throw. The stored marker only moves forward |
| Dashboard.DashboardWebhookHandler.Rendered | dashboard-webhook.js:35-41 | the sinks after rendering a text: a present chart shows its counts, an absent one stays absent, and the counters and the table are written in order up to the first missing element; the postcondition of Dashboard.DashboardWebhookHandler.UpdateDashboardData |
| Dashboard.DashboardWebhookHandler.UpdateDashboardData | dashboard-webhook.js:35-41 | present charts get their counts and absent ones are skipped. The counters and the table are written in order up to the first missing element, which throws |
| Dashboard.DashboardWebhookHandler.UpdateOfficerChart | dashboard-webhook.js:55-64 | the chart shows the per-officer counts, which sum to the row count |
| Dashboard.DashboardWebhookHandler.UpdateCoverageChart | dashboard-webhook.js:66-75 | the chart shows the per-coverage-key counts, which sum to the row count |
| Dashboard.DashboardWebhookHandler.UpdateKPICards | dashboard-webhook.js:77-82 | `#total-tours` gets the row count, then `#perc-attachments` gets the percentage. A missing element throws and stops the rest |
| Dashboard.DashboardWebhookHandler.UpdateDataTable | dashboard-webhook.js:84-100 | the body is cleared and refilled with `min(20, n)` rows, newest first, whatever it held before, so repeating it with the same data gives the same table. A missing body throws |

## Left out

- `fetch`, `await` and `response.text()` (lines 15-16): the outcome of one poll is the parameter `fetch` of `CheckForUpdates`. Any error it raises becomes `FetchFailed`.
- `setInterval` and the immediate first call in `initializePolling` (lines 8-11): timers are not modelled. Each call of `CheckForUpdates` is one poll.
- Overlapping in-flight polls: nothing in the script guards against them. The model runs one poll at a time.
- `localStorage` as a browser store (lines 17, 22): it is the field `lastMarker`. A stored empty string and an absent key are both `""`.
- `console.log` and `console.error` (lines 20, 25): logging only.
- The DOM calls `querySelector`, `textContent`, `innerHTML`, `createElement` and `appendChild`: the sinks are fields. A table row is its seven cells, not HTML. Escaping of cell text is not modelled.
- Missing page elements are the only throws modelled. They are constant presence flags on the handler.
- The chart library (`window.officerChart.update()`): each chart is a field holding a label-to-count map. The redraw is not modelled, and neither is a throw from inside the library.
- The `labels`/`data` arrays: they are the keys and values of the count map, so they have the same length by construction. Their order is not modelled. `Object.keys` puts integer-like keys first and the rest in insertion order.
- Object property-key quirks: a header or officer name such as `__proto__` or `constructor` is treated as an ordinary key.
- `Strings.LexLess` compares code points. JavaScript compares UTF-16 code units. The two orders differ only between characters above U+FFFF and characters in U+E000–U+FFFF.
- Aggregates.Percentage: exact arithmetic instead of floating point. It is `floor(100 * attached / total + 1/2)`. It does not model the rounding error of `attached/total*100` in doubles, or the `%` suffix.
- The `DOMContentLoaded` bootstrap and the hard-coded URL (lines 103-107): the URL only feeds `fetch`.
- The constructor's `csvUrl` argument: the model's constructor takes instead the stored marker and the page elements it finds. The initial counter and table contents are not known from the script, so the model starts them as 0, `NaN` and empty.
