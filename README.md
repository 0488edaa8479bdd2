# Trade Coffee AI survey — a verified model of its logic

The survey is a multi-page web form with a spreadsheet behind it.

- **Browser side (`script.js`).** A wizard shows one page (section) at a time. It checks the required questions of a page before moving on. It shows two follow-up questions depending on earlier answers. On submit it turns the form's entries into a response object and posts it.
- **Sheet side (`google-apps-script.js`).** `doPost` makes sure the sheet has its header row. It turns each header into a response key, builds one row of cells and appends it. `createSummary` counts the usage levels and departments of the stored rows.

This project models that logic in Dafny and proves what it promises.

- The page is a sequence of `Control` values in document order.
- The sheet is a sequence of rows of cell texts.
- The clock is a parameter.

| module | file | models |
|---|---|---|
| `Common` | `common.dfy` | `Option` |
| `Strings` | `strings.dfy` | `trim`, ASCII `toLowerCase`, `join(', ')`, decimal numerals in template literals |
| `Form` | `form.dfy` | the controls of the page |
| `Validation` | `validation.dfy` | `validateCurrentSection` |
| `Visibility` | `visibility.dfy` | the `change` handlers of `initConditionalLogic` |
| `Payload` | `payload.dfy` | the `FormData` loop and checkbox step of the submit handler; the `autoSave` fold |
| `Countdown` | `countdown.dfy` | the integer part of `updateCountdown` |
| `Wizard` | `wizard.dfy` | `currentSection` and the navigation handlers, as the class `SurveyWizard` |
| `Headers` | `headers.dfy` | `createHeaders`, `headerToKey` |
| `Sink` | `sink.dfy` | the header read and write, row building and append of `doPost`; the sheet as the class `Sheet` |
| `Summary` | `summary.dfy` | the counting loops of `createSummary` |

The model follows the code except in `doPost`, where `Sink.Sheet.DoPost` corrects both the row layout and the header read on a sheet with no content (see "Findings"):

- **Hidden and empty fields.** `FormData` lists the follow-up questions even while they are hidden, and lists empty text fields as `''`. The model sends both, as the code does (`Payload.Submitted`).
- **Column layout.** `createSummary` reads the usage level from column 1 and the department from column 24 of each data row (google-apps-script.js:163, google-apps-script.js:170). Those are the columns of "Usage Level" and "Department" among the created headers, so the code expects each answer under its own header. `doPost` as written appends each answer one column to the right of its header instead. It also cannot initialise a sheet that has no content at all. Both are under "Findings". Here the model departs from the code: `Sink.Sheet.DoPost` is the corrected `doPost`, and the code as written is modelled beside it (`Sink.BuildRowAsWritten`, `Sink.HeaderReadAsWritten`).

## Model

| member | source | states |
|---|---|---|
| Wizard.SurveyWizard.constructor | script.js:18 | the page on load is page 1 of `totalSections`, with no error marks |
| Wizard.SurveyWizard.NextSection | script.js:159-164 | the page counter rises by exactly 1 below the last page and is unchanged on it; it stays in 1..total; it does not move exactly when Submit was the button on view |
| Wizard.SurveyWizard.PreviousSection | script.js:166-171 | the page counter falls by exactly 1 above page 1 and is unchanged on it; it stays in 1..total; it moves exactly when Previous was on view |
| Wizard.SurveyWizard.ValidateCurrentSection | script.js:176-239 | the result is whether the page on view passes; that page's old error marks are cleared, other pages' marks stay, and every group holding a failing control is marked |
| Wizard.SurveyWizard.ClickNext | script.js:87-92 | the page moves forward only when its validation passes; a failed validation leaves the counter unchanged |
| Wizard.SurveyWizard.ClickPrevious | script.js:94-97 | Previous moves back with no validation and leaves the error marks alone |
| Wizard.SurveyWizard.Submit | script.js:289-328 | something is sent iff the page on view validates; what is sent is the timestamp with the responses built from the whole form |
| Wizard.Buttons | script.js:137-157 | on any counter exactly one of Next and Submit is shown; Submit iff on the last page; Previous on every page but the first |
| Validation.CheckSection | script.js:186-229 | the loop's `isValid` flag is true iff no required control of the page fails; its marks are exactly the groups of the failing controls, all on that page |
| Validation.MarksIffInvalid | script.js:186-229 | a page with a mark did not pass; when every required control sits in a question group, a page that did not pass has a mark |
| Validation.RevalidateIsStable | script.js:181-184 | validating the same page twice leaves the same marks as validating it once |
| Validation.OtherPagesDoNotMatter | script.js:177-178 | changing a control of another page changes neither the verdict nor the marks of the page being validated |
| Strings.Trim | script.js:204 | `trim()` returns a string no longer than its input that neither starts nor ends with white space |
| Strings.TrimStart | script.js:204 | the result is a suffix of the input with no leading white space, and what was cut is white space |
| Strings.TrimEnd | script.js:204 | the result is a prefix of the input with no trailing white space, and what was cut is white space |
| Strings.TrimIsCore | script.js:204 | `trim()` returns the slice of the input between two all-white-space ends, and the slice does not start or end with white space |
| Strings.TrimEmptyIffBlank | script.js:204 | `!value.trim()` holds iff the value is empty or all white space |
| Strings.SplitJoin | script.js:323 | splitting a `join(', ')` at ", " gives back the joined values, in order, when none holds a comma |
| Strings.NatToString | script.js:57 | a number in a template literal is rendered as one or more decimal digits |
| Strings.ParseNatToString | script.js:57 | that rendering reads back as the same number and has no leading zero |
| Strings.LowerChar | google-apps-script.js:132 | `toLowerCase` maps `A`..`Z` to `a`..`z` and leaves every other character alone |
| Visibility.OnChange | script.js:259-266 | a checked event shows the dependent question iff its value is in the rule's allowed set; an unchecked event leaves visibility as it was |
| Visibility.OnChangeIdempotent | script.js:259-266 | a repeated event changes nothing further |
| Visibility.ReplayFollowsLastChecked | script.js:255-281 | after any run of events, the question is shown iff the last checked event's value is allowed; with no checked event, visibility is as before |
| Visibility.RulesIndependent | script.js:257-271 | an event on one question never moves the other question's container |
| Visibility.OnInputChange | script.js:255-281 | a checked `q10_tried_ai` radio shows question 10b iff its value is "yes_failed"; a checked `q13_excitement` radio shows question 13b iff its value is "1" or "2"; an unchecked event changes nothing |
| Payload.FormEntries | script.js:297 | no more entries than controls, and every entry has a non-empty name |
| Payload.FormEntriesCarrySubmittedValues | script.js:297 | for every name, the entries of that name carry exactly the values of the submitted controls of that name (named, and checked when a radio or checkbox), in document order |
| Payload.CollectResponses | script.js:304-316 | the in-place loop over the entries leaves exactly the response object the fold `Collect` describes |
| Payload.CollectIsSettled | script.js:304-316 | a key is present iff some entry carries it, and it holds the reference value `Settled` of its values: blanks before the first non-blank are overwritten, one value stays a string, several make an array |
| Payload.FirstEntryStored | script.js:312-313 | the first entry for a key stores its value unchanged |
| Payload.RepeatedKeyBecomesArray | script.js:306-311 | a key sent two or more times, starting with a non-empty value, holds the array of all its values in order |
| Payload.BlankIsOverwritten | script.js:306 | a key whose stored value is `''` is overwritten by its next entry |
| Payload.FlattenCheckboxGroups | script.js:318-325 | the loop over the four groups leaves exactly what `Flattened` describes |
| Payload.FlattenedMeaning | script.js:318-325 | a group with a checked box holds the ", "-join of the checked values; every other key, a group with nothing checked included, keeps its value; no key is added or removed otherwise |
| Payload.ChoiceEntriesAreCheckedValues | script.js:297 | for a name carried only by radios and checkboxes, the values sent are exactly the checked values in document order |
| Payload.PayloadIsFlat | script.js:304-325 | when only the four groups repeat a name and only choices carry those names, every response is a plain string |
| Payload.GroupArrayIsJoined | script.js:304-325 | a group with two or more checked boxes first becomes the array of their values, then their ", "-join, which splits back into them |
| Payload.AutoSaveDraft | script.js:409-416 | the `autoSave` loop leaves exactly the last-write-wins fold `LastWins` of the entries |
| Payload.LastWinsIsLast | script.js:414-416 | a draft key is present iff it was sent, and it holds the last value sent under it |
| Payload.DraftAgreesOnSingleKeys | script.js:414-416 | for a key sent once, the draft and the submitted responses agree |
| Countdown.SplitDistance | script.js:49-52 | hours < 24, minutes < 60 and seconds < 60, and the parts account for the distance to within one second |
| Countdown.SplitIsUnique | script.js:49-52 | any in-range split that accounts for the distance to within a second is the one computed |
| Countdown.UpdateCountdown | script.js:37-66 | the survey is closed iff the distance is negative; the banner turns red iff under an hour is left; with a day or more left the text is days, hours and minutes |
| Countdown.CountdownText | script.js:56-62 | the text ends in "m" in the days format and in "s" in the other two |
| Countdown.CountdownTextUnits | script.js:56-62 | the text holds a "d" iff a day or more is left, an "h" iff an hour or more is, and an "s" iff less than a day is |
| Countdown.FormatByMagnitude | script.js:56-64 | the days format iff a day or more is left; the hours format iff between an hour and a day; the minutes format iff under an hour |
| Headers.CreateHeaders | google-apps-script.js:69-99 | the header list has 27 entries and starts with "Timestamp" |
| Headers.HeaderToKey | google-apps-script.js:101-133 | a header in the mapping table gets the table's key and any other header its fallback key; a non-empty header never gets an empty key |
| Headers.Slug | google-apps-script.js:132 | the fallback key has as many characters as the header |
| Headers.SlugShape | google-apps-script.js:132 | the fallback key has the header's length: spaces become `_`, capitals become lower case, and everything else stays |
| Headers.SlugIdempotent | google-apps-script.js:132 | deriving a fallback key from a fallback key changes nothing |
| Headers.CreatedHeadersDistinct | google-apps-script.js:69-99 | 27 distinct headers starting with "Timestamp"; their 27 keys are distinct and non-empty |
| Headers.CreatedHeaderIsMapped | google-apps-script.js:101-133 | every created header is in the mapping table, so its key is the table's key and never a fallback |
| Headers.UnknownHeaderIsSlugged | google-apps-script.js:132 | a header missing from the table gets the fallback key, of the same length and without spaces |
| Headers.NewFieldExample | google-apps-script.js:132 | "New Field" gets the key "new_field" |
| Sink.EnsureHeaders | google-apps-script.js:16-22 | an empty or blank-first header row is replaced by the created headers, any other is kept; either way the result would not be replaced again |
| Sink.EnsureHeadersIdempotent | google-apps-script.js:19-22 | ensuring the headers twice is ensuring them once |
| Sink.LastColumn | google-apps-script.js:16 | the last column is at least the content width of every row and, when positive, is the content width of some row |
| Sink.HeaderReadAsWritten | google-apps-script.js:16 | as written, the read fails iff no cell of the sheet holds content, and otherwise returns `getLastColumn()` cells |
| Sink.HeaderRead | google-apps-script.js:16 | the corrected read is `getLastColumn()` cells wide, keeps every content cell of row 1 and has no content that row 1 lacks |
| Sink.ContentWidthMeaning | google-apps-script.js:16 | a row's content width is its length without trailing empty cells |
| Sink.LastColumnMeaning | google-apps-script.js:16 | the last column lies right of every non-empty cell of the sheet |
| Sink.NoLastColumnIffNoContent | google-apps-script.js:16 | the last column is 0 iff no cell of the sheet has content |
| Sink.FreshSheetIsNeverInitialised | google-apps-script.js:16-19 | as written, the header read throws iff the sheet has no content, and otherwise returns at least one cell, so the `headers.length === 0` test never holds |
| Sink.HeaderReadIsTheWrittenReadMadeTotal | google-apps-script.js:16-19 | the corrected read equals the written one wherever that returns; on a sheet with no content it gives an empty header row, which is replaced |
| Sink.BuildRowAsWritten | google-apps-script.js:30-38 | the `push` loop followed by `unshift` gives the timestamp and then one cell per header, the Timestamp header included |
| Sink.BuildAlignedRow | google-apps-script.js:30-38 | the corrected loop gives one cell per header: the timestamp under "Timestamp" and each answer under its own header |
| Sink.Sheet.AppendRow | google-apps-script.js:41 | exactly one row is added at the end, and the earlier rows are unchanged |
| Sink.Sheet.WriteHeaderRow | google-apps-script.js:21 | row 1 starts with the headers and keeps its other cells; a header row with a non-empty first cell is not replaced again |
| Sink.Sheet.DoPost | google-apps-script.js:7-62 | the corrected `doPost` (see "Findings"): a body that fails to parse gives Error with the sheet untouched. A body that parses writes the headers if needed. It then gives Error with no row when `responses` is missing, and otherwise Success with exactly one aligned row appended. Afterwards the header row is in place. |
| Sink.ColumnShift | google-apps-script.js:30-38 | as written, the created headers give a row one cell longer than the headers; the cell under "Usage Level" is always empty and every answer sits one column right of its header |
| Sink.AlignedRowUnderItsHeader | google-apps-script.js:30-38 | the aligned row is as long as the headers, with the timestamp in column 0 and each answer under its own header |
| Sink.AsWrittenIsAlignedPlusOne | google-apps-script.js:30-38 | the as-written row is the aligned row with the Timestamp header's own cell inserted at column 1 |
| Sink.TwoColumnExample | google-apps-script.js:30-38 | with headers Timestamp and Usage Level and the answer "daily", the code appends ["T1", "", "daily"] where ["T1", "daily"] is meant |
| Summary.DataRange | google-apps-script.js:153 | every row of the data range is as wide as the sheet's last column |
| Summary.DataRangeKeepsContent | google-apps-script.js:153 | the data range holds every content cell where the sheet has it, and nothing the sheet does not have |
| Summary.SummaryReadsSheet | google-apps-script.js:153-170 | the counting loops see one cell per data row: in column `i` of data row `j` the sheet's cell `sheet[j + 1][i]` where it exists, "" where the row is shorter but the column lies inside the last column, and "undefined" in every row when the column lies past it |
| Summary.ColumnUnderHeader | google-apps-script.js:153-165 | below a header row, a column inside the data range that every row reaches reads exactly as the rows hold it |
| Summary.OccursIffPresent | google-apps-script.js:161-165 | a value occurs at least once iff it is one of the cells |
| Summary.FirstSeenListsEachValueOnce | google-apps-script.js:181 | `Object.entries` lists each distinct value exactly once |
| Summary.CountsSumToTotal | google-apps-script.js:158-172 | the counts of the distinct values add up to the number of rows counted |
| Summary.TallyMeaning | google-apps-script.js:161-165 | the counting object has a key per distinct value, holding its number of occurrences; the listed counts sum to the number of rows |
| Summary.TallySnoc | google-apps-script.js:164 | one more row adds one to its value's count, or creates the key with count 1 at the end of the listing order |
| Summary.CountColumn | google-apps-script.js:161-165 | the in-place counting loop leaves exactly the tally of the column and its first-seen key order |
| Summary.CreateSummary | google-apps-script.js:153-172 | the total is the number of rows minus the header row; each breakdown lists every distinct value once, with counts that add up to the total |
| Summary.AsWrittenRowsMiscount | google-apps-script.js:163-170 | on rows appended as written, column 1 is empty in every row and column 24 holds the respondent's name |
| Summary.AsWrittenUsageIsOneBlankEntry | google-apps-script.js:161-165 | so column 1 of such rows tallies to the single entry "" counting every row |
| Summary.CreatedHeadersAreWide | google-apps-script.js:69-99 | a sheet whose first row is the created headers is at least 27 columns wide |
| Summary.AsWrittenSheetUsageIsOneBlankEntry | google-apps-script.js:153-165 | a sheet with the created header row and rows appended as written has the usage breakdown {"": number of responses}, as `createSummary` reads it |
| Summary.UniformTally | google-apps-script.js:161-165 | a column whose every cell is `v` tallies to the one entry `v` with the column's length |
| Summary.AlignedRowsCountTheRightAnswers | google-apps-script.js:163-170 | on aligned rows, column 1 holds the usage answer and column 24 the department answer |

## Left out

- Presentation: `showSection`, `showError`, scrolling, `disableForm`, the success modal, the `beforeunload` guard, header and row formatting, `autoResizeColumns`, and writing the summary cells. None of them decides anything the model states.
- The progress bar (`updateProgressBar`): it is floating-point percentages and CSS.
- Dates and the clock: `new Date`, `getTime`, `toISOString` and `setInterval`. The distance and the timestamps are parameters.
- The network post in `submitToGoogleSheets` and its show-success-anyway handling: an I/O call with no logic in the core.
- `localStorage` and `restoreDraft`. Only the draft fold of `autoSave` is modelled (`Payload.AutoSaveDraft`).
- `setupTriggers` and the creation or clearing of the summary sheet: Apps Script service calls.
- JSON parsing is taken as its outcome (`Sink.Request`). The responses reach the sheet as a map from key to string. Array values are not modelled on the sheet side.
- Payload.PayloadIsFlat: shows that every response is a plain string only under two assumptions about the page, which the page markup would have to confirm. Only the four checkbox groups repeat a name among the entries, and only radios and checkboxes carry those names.
- Sheet cells are strings. Numbers and dates that Sheets would return are not modelled.
- The sheet's rows run up to its last row with content. Trailing empty rows, which `appendRow` would skip, are not modelled. `Sink.Sheet` assumes this rule and does not check it: its methods also accept a sheet such as `[[""]]`.
- Property names inherited from `Object.prototype` (for example a cell reading "constructor" in `createSummary`, or an answer key such as `toString`) are not modelled. The objects are plain maps here.
- Strings.LowerChar: lower-cases ASCII letters only. JavaScript's `toLowerCase` also maps non-ASCII capitals.
- Summary.CreateSummary: the listing order is first-seen order. JavaScript lists integer-like keys first, in numeric order, and `createSummary` only uses the order for writing cells.
- Controls other than radios, checkboxes, text inputs and textareas (selects, email inputs and the like) are one kind, `OtherControl`, which never blocks a page, as in the validator's branches.
- Buttons are not controls in the model. `FormData` skips buttons anyway, and the Next and Previous handlers call `preventDefault` (script.js:87-96).
- Disabled controls and file inputs, which `FormData` skips or encodes differently, are not modelled. The page markup is not part of this model.

## Findings

| source | as written | input that shows it | evidently intended | confidence | as-written member | corrected member |
|---|---|---|---|---|---|---|
| google-apps-script.js:30-38 | one cell is pushed per header, the "Timestamp" header included (its key `timestamp` is never among the responses), and the timestamp is then put in front, so every answer lands one column right of its header; `createSummary` then reads an always-empty usage column and counts names as departments | headers ["Timestamp", "Usage Level"], responses {q1_usage_level: "daily"}, timestamp "T1": the appended row is ["T1", "", "daily"] | the timestamp fills the Timestamp column and each answer sits under its own header: ["T1", "daily"] | not executed; follows from the code alone | Sink.BuildRowAsWritten, Sink.ColumnShift, Sink.TwoColumnExample, Summary.AsWrittenUsageIsOneBlankEntry, Summary.AsWrittenSheetUsageIsOneBlankEntry | Sink.BuildAlignedRow, Sink.AlignedRowUnderItsHeader, Summary.AlignedRowsCountTheRightAnswers, Sink.Sheet.DoPost |
| google-apps-script.js:16-19 | the header row is read through a range `getLastColumn()` columns wide; on a sheet with no content that is 0 columns, a range Apps Script refuses, so `doPost` answers error and the `headers.length === 0` branch that would create the headers is never reached | a new, empty sheet: every submission answers error and the sheet stays empty | an empty sheet reads as an empty header row, the headers are created and the row appended | not executed; rests on Apps Script rejecting a range of zero columns | Sink.HeaderReadAsWritten, Sink.FreshSheetIsNeverInitialised | Sink.HeaderRead, Sink.HeaderReadIsTheWrittenReadMadeTotal, Sink.Sheet.DoPost |
