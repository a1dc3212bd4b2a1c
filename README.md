# Student result lookup: a verified model

This project models the decision logic of a single-page school results
viewer (`app.js`). The user picks a grade and types a seating number. The page
looks the number up in a dataset that maps grade keys to lists of student
records. It then shows either inline error messages or a report card. The
card holds the student's name, one row per subject and a total that counts
up. A second button saves the card as a PNG image.

The model is split into modules:

- `Records` (records.dfy): a record is the ordered list of its fields, in the
  order `Object.keys` reports them. Field values are JSON numbers (whole) or
  strings. This module also covers property lookup and the text a value shows.
- `JsText` (jstext.dfy): `String.prototype.trim` over ECMAScript's
  white-space and line-terminator characters.
- `Search` (search.dfy): the search click handler. The pure decision
  `Decide` turns the grade selection, the raw ID text and an optional dataset
  into an outcome: both checks' results, "grade unavailable", "not found", or
  the record to render. `Apply` gives the page state after that outcome.
  `SearchPage` is the page state the handler updates in place, and
  `SearchPage.Search` is the handler itself. It keeps the source's mutable
  `valid` flag and its successive message writes, and is proved equal to
  `Apply(old page, Decide(...))`.
- `ReportCard` (reportcard.dfy): `subjectConfig`, the reserved-key filter,
  the label/icon fallback, and the total branch of `renderCard`.
- `CountUp` (countup.dfy): `animateTotal` as a loop over exact reals that
  records the value shown at each tick. It is proved equal to a frame
  function, and the lemmas are about that function.
- `TotalCell` (totalcell.dfy): the total cell over time, when a count-up from
  an earlier search is still running as a later search renders (see
  Findings).
- `Download` (download.dfy): the download button as a state machine
  (ready, busy and disabled, ready again or failed). The screenshot library is
  an oracle, and the file name is built from the name cell's text.

Two behaviours of the code differ from what a reader might expect, and the
model follows the code:

- One might expect the count-up never to decrease and never to pass the
  total. The code guarantees that only for whole-number totals
  (`CountUp.WholeTargetMonotone`). For a total of 10.9, tick 39 shows
  `ceil(10.6275) = 11` and tick 40 shows 10.9
  (`CountUp.FractionalTargetOvershoots`).
- The file name is read from the name cell when the snapshot finishes, not
  when the button is clicked (`app.js:73` runs inside the `then` callback).

The loose `Student_ID == idValue` comparison is modelled as one canonical
comparison. The stored ID's text form (a whole number in decimal, or the
string itself) must equal the trimmed input.

## Model

| member | source | states |
|---|---|---|
| `Records.Keys` | app.js:153 | `Object.keys(data)`: the record's keys in field order; its meaning is stated by `Records.KeysSpec` |
| `Records.KeysSpec` | app.js:153 | the listed keys are exactly those under which `data[key]` is defined; in an object (distinct keys) each is listed once |
| `Records.Get` | app.js:170 | `rec[key]` is undefined exactly when no field has that key |
| `Records.GetField` | app.js:170 | in a record with distinct keys, looking up a field's key yields that field's value |
| `Records.DisplayText` | app.js:170 | a string value is written into the page unchanged; a whole number as `NumberText` (see `Records.NumberTextSpec`) |
| `Records.NaturalTextValue` | app.js:170 | the decimal text of a natural number denotes that number and starts with `0` only for zero (the shortest form) |
| `Records.NumberTextSpec` | app.js:170 | a whole number is written as a minus sign when negative, then the shortest decimal form of its magnitude |
| `JsText.Trim` | app.js:96 | `gelosInput.value.trim()`; its meaning is stated by `JsText.TrimIsSlice` and `JsText.TrimEmptyIff` |
| `JsText.TrimStartSpec` | app.js:96 | stripping the start leaves the suffix after the longest white-space prefix, and that suffix does not start with white space |
| `JsText.TrimEndSpec` | app.js:96 | stripping the end leaves the prefix before the longest white-space suffix, and that prefix does not end with white space |
| `JsText.TrimBothSlice` | app.js:96 | trimming both ends yields a slice `s[a..b]` where everything outside is white space and both ends inside are not |
| `JsText.TrimIsSlice` | app.js:96 | `idValue` is the slice of the typed text between its leading and trailing white space |
| `JsText.TrimEmptyIff` | app.js:96-105 | the trimmed ID is empty exactly when every typed character is white space |
| `JsText.TrimUnpadded` | app.js:96 | text with no white space at either end is left unchanged |
| `JsText.TrimPadded` | app.js:96 | one space around such text is removed |
| `JsText.TrimIdempotent` | app.js:96 | trimming twice equals trimming once |
| `Search.MessageText` | app.js:100-123 | the cleared message is the only empty message text |
| `Search.Matches` | app.js:118 | the `find` callback `s.Student_ID == idValue`, as text equality of the stored ID's display form with the trimmed input; used by `Search.FindStudent` |
| `Search.FindStudent` | app.js:118 | `find` returns the first record whose `Student_ID` matches; no result exactly when no record matches |
| `Search.Decide` | app.js:92-126 | what one click decides from the grade, the raw ID text and the dataset; stated by `Search.ValidationIndependent`, `Search.ChecksFailExactly`, `Search.GradeUnavailableIff`, `Search.NotFoundIff` and `Search.FoundIsFirstMatch` |
| `Search.DecideTrimmed` | app.js:98-126 | the same decision once the ID is trimmed: both checks, then the dataset, the grade and the lookup, in that order |
| `Search.LookupOutcome` | app.js:118-125 | found record or not found, from the first match; stated by `Search.FoundIsFirstMatch` and `Search.NotFoundIff` |
| `Search.Apply` | app.js:92-126 | the page after an outcome: messages, panel visibility and card; stated by `Search.NoStaleErrors`, `Search.StoppedLeavesResults` and `Search.FoundRenders` |
| `Search.ValidationIndependent` | app.js:98-110 | when either check fails, the attempt stops and reports both checks' results, so both messages can show at once |
| `Search.ChecksFailExactly` | app.js:95-108 | the grade check fails exactly for `""` or the placeholder; the ID check fails exactly for all-white-space text |
| `Search.NoStaleErrors` | app.js:40-43 | the messages after an attempt depend only on that attempt's inputs, never on earlier messages |
| `Search.StoppedLeavesResults` | app.js:110-116 | after failed validation, a missing dataset or a missing grade, nothing is rendered and the result panel is unchanged |
| `Search.GradeUnavailableIff` | app.js:112-116 | "grade unavailable" happens exactly when checks pass and the loaded dataset lacks the grade; only the grade message shows and the panel is untouched |
| `Search.FoundIsFirstMatch` | app.js:118-121 | a rendered record is the first record of the selected grade whose ID matches the trimmed input |
| `Search.NotFoundIff` | app.js:118-125 | "not found" happens exactly when checks pass, the grade exists and no record matches; only the ID message shows and the panel is hidden |
| `Search.FoundRenders` | app.js:120-121 | a found record is rendered into a visible panel with both messages cleared |
| `Search.SearchPage.ClearErrors` | app.js:40-43 | both messages are emptied; nothing else changes |
| `Search.SearchPage.Validate` | app.js:98-108 | both checks run; each failing check sets its own message; `valid` is true exactly when neither failed |
| `Search.SearchPage.ShowLookup` | app.js:118-125 | renders the first match, or sets the not-found message and hides the panel |
| `Search.SearchPage.Render` | app.js:148-150 | the panel is revealed and shows the record's card; the messages are unchanged |
| `Search.SearchPage.Search` | app.js:92-126 | the page after a click equals `Apply(page before, Decide(grade, raw ID, dataset))` |
| `Search.ExampleFound` | app.js:92-121 | grade G1 with ID " 100 " finds Ali's record |
| `Search.ExampleNotFound` | app.js:118-125 | grade G1 with ID "999" is not found |
| `Search.ExampleCard` | app.js:148-181 | Ali's card: name "Ali", one mathematics row (label, icon, 90), total counting up to 90 |
| `ReportCard.DisplayFor` | app.js:157-167 | the label and icon of a subject row; stated by `ReportCard.DisplayFallback` |
| `ReportCard.DisplayFallback` | app.js:129-167 | a configured subject gets its configured label and icon; a key named like an inherited `Object.prototype` member finds that member, so label and icon render as "undefined"; any other key gets itself as label and `fa-star`; the star appears exactly for that last kind |
| `ReportCard.SubjectKeys` | app.js:152-153 | the kept keys come from the record and none is reserved |
| `ReportCard.SubjectKeysSelect` | app.js:152-153 | the kept keys are exactly the non-reserved keys, at strictly increasing positions (original order) |
| `ReportCard.RowFor` | app.js:157-170 | one table row: the key, its display and `data[key]`; stated by `ReportCard.SubjectRowsSpec` |
| `ReportCard.SubjectRows` | app.js:152-174 | the subject table's rows; stated by `ReportCard.SubjectRowsSpec` |
| `ReportCard.SubjectRowsSpec` | app.js:152-170 | one row per non-reserved field, in key order; each row has that field's key and value and the label/icon `DisplayFor` gives |
| `ReportCard.TotalViewOf` | app.js:176-181 | the total cell shows "-" exactly when `total` is absent; a numeric total is counted up to exactly that number; a string total is handed on as that string |
| `ReportCard.NameText` | app.js:150 | a present name shows as its display text (a string unchanged); an absent name leaves the name cell empty |
| `ReportCard.RenderCard` | app.js:148-181 | the rendered card: name, subject rows and total cell; stated by `Search.ExampleCard` and `TotalCell.RenderedTotalCountsToRecordTotal` |
| `CountUp.Ceil` | app.js:195 | `Math.ceil` is the integer in `[x, x + 1)` |
| `CountUp.CeilLeast` | app.js:195 | every integer at or above `x` is at or above `ceil(x)` |
| `CountUp.Counter` | app.js:187-190 | `current` after k ticks, k increments of `target / 40`; stated by `CountUp.StopsAtFirstReach` |
| `CountUp.TickCount` | app.js:189-193 | how many ticks run before the timer is cleared; stated by `CountUp.StopsAtFirstReach` |
| `CountUp.Frame` | app.js:190-196 | what one tick writes: the target once reached, else the rounded-up counter; stated by `CountUp.PositiveTakesFortyTicks` and `CountUp.EndsOnTarget` |
| `CountUp.Frames` | app.js:186-197 | the values the cell shows, in order; the loop `CountUp.AnimateTotal` is proved to produce exactly these |
| `CountUp.StopsAtFirstReach` | app.js:189-193 | the timer is cleared at the first tick whose counter reaches the target: after 40 ticks for a positive target, after 1 otherwise |
| `CountUp.AnimateTotal` | app.js:186-198 | the loop's shown values are exactly `Frames(target)` |
| `CountUp.EndsOnTarget` | app.js:191-193 | the count-up stops within 40 ticks on exactly the target |
| `CountUp.NonPositiveStopsAtOnce` | app.js:187-193 | a target of zero or below is shown at the first tick and the count-up stops |
| `CountUp.PositiveTakesFortyTicks` | app.js:188-196 | a positive target takes 40 ticks; every tick before the last shows the rounded-up counter |
| `CountUp.IntermediateNonDecreasing` | app.js:194-196 | the values shown before the final one never decrease |
| `CountUp.WholeTargetMonotone` | app.js:186-197 | for a whole-number target every shown value is at most the target, and the sequence never decreases |
| `CountUp.FractionalTargetOvershoots` | app.js:188-196 | for target 10.9 the 39th value (11) is above the target and the 40th (10.9) is below it |
| `Download.ShownName` | app.js:73 | the name cell's text, or the fallback name when it is empty; never empty |
| `Download.FileName` | app.js:73 | the file name starts with the prefix, ends with `.png`, and its length is the sum of the three parts |
| `Download.FileNameRoundTrip` | app.js:73 | the part between prefix and suffix gives back the name shown, or the fallback for an empty name |
| `Download.FileNameInjective` | app.js:73 | different non-empty names give different file names |
| `Download.Press` | app.js:51-61 | the click handler as a step on the button's state; stated by `Download.PressSpec` |
| `Download.Settle` | app.js:70-88 | the snapshot's continuation as a step on the button's state; stated by `Download.SettleSpec` |
| `Download.PressSpec` | app.js:51-61 | a click starts a snapshot exactly when the button is enabled, the library is loaded and the card exists, and then the button is busy and disabled; otherwise the button is unchanged; the library alert fires exactly when it is missing |
| `Download.SettleSpec` | app.js:70-88 | a settled snapshot re-enables the button, showing ready exactly on success (with a file saved under the shown name) and failed exactly on failure (with the alert) |
| `Download.StepsKeepConsistent` | app.js:60-87 | click and settle keep the button disabled exactly while it is busy |
| `Download.NoReentrantCapture` | app.js:60-61 | once a snapshot has started, another click does nothing |
| `Download.RunKeepsConsistent` | app.js:51-89 | every sequence of clicks and settles from a consistent button keeps it consistent |
| `Download.OneCaptureAtATime` | app.js:60-61 | after a click starts a snapshot, later clicks before any settle have no effect |
| `Download.DownloadButton.Click` | app.js:51-62 | the click handler's new button state and effect are `Press(old state, ...)` |
| `Download.DownloadButton.Settled` | app.js:70-88 | the snapshot continuation's new button state and effect are `Settle(old state, ...)` |
| `TotalCell.Writes` | app.js:176-197 | the writes one render makes into the total cell: "-" at once, or one frame per period after it; stated by `TotalCell.WritesIncreasing` and `TotalCell.LastWriteIntended` |
| `TotalCell.WritesIncreasing` | app.js:186-197 | one render's writes are non-empty, come at strictly increasing times and none comes before the render |
| `TotalCell.LastWriteIntended` | app.js:176-197 | a render on its own leaves the cell on "-" or on exactly the total |
| `TotalCell.CellAsWritten` | app.js:176-197 | the cell after two renders with both of their writes delivered, since nothing clears the earlier timer |
| `TotalCell.StaleCountUpWins` | app.js:186-197 | when a record without a total is rendered less than 40 periods after a count-up to a positive total began, the cell ends on the earlier total, not "-" |
| `TotalCell.StaleCountUpExample` | app.js:176-197 | a total of 90 followed half a period later by a record without a total leaves 90 in the cell |
| `TotalCell.CellCleared` | app.js:176-197 | the cell when the second render first clears the earlier count-up |
| `TotalCell.ClearedShowsLatestRender` | app.js:176-197 | with the earlier count-up cleared, the cell always ends on what the later render shows: "-" or its total |
| `TotalCell.RenderedTotalCountsToRecordTotal` | app.js:176-197 | a record with a whole-number total renders a count-up to that total whose values never go down, never pass the total, and stop on it exactly |

## Left out

- Loading the dataset (`app.js:19-28`, `fetch` and JSON parsing) is network I/O. Its result is a parameter: `Some(dataset)`, or `None` when loading failed.
- The shake animation in `showError` (`app.js:33-37`), the HTML templates and CSS classes of the table rows (`app.js:158-173`), `scrollIntoView` (`app.js:183`), printing (`app.js:46-48`) and console logging are presentation only. A message is modelled as which message it is, together with its text.
- `html2canvas` and its options, `toDataURL`, `link.click` and `alert` are third-party or browser calls. Whether the library is loaded, whether the card element exists, and whether the snapshot and PNG encoding succeeded are parameters. Alerts and the download are returned as effects.
- Download.DownloadButton.Click: a click on a disabled button does nothing. This is the browser's dispatch rule, not code in the handler, and the model states it explicitly.
- The 15 ms `setInterval` timing and IEEE-754 arithmetic are not modelled. The counter is exact. Accumulated rounding of `target/40` and a NaN target (which never stops) are outside the model.
- `parseFloat` of a string-valued total is not evaluated. `ReportCard.TotalViewOf` keeps the text (`CountUpParsed`).
- Records.DisplayText: whole numbers are written in plain shortest decimal form. JavaScript switches to exponent notation from 10^21 and loses exactness beyond 2^53; neither is modelled.
- JSON `null`, booleans, nested values and fractional numbers as field values are not modelled. A record's values are whole numbers or strings.
- JavaScript's loose `==` is abstracted to text equality of the stored ID with the trimmed input. For example, stored `100` and typed `0100` are equal in JavaScript but differ in the model.
- `Object.keys` lists integer-like keys first. Records are taken to be already in `Object.keys` order.
- `database[gradeKey]` can also find inherited properties such as `constructor`. The model looks up only the dataset's own keys.
- CountUp.AnimateTotal: describes one count-up on its own. A count-up still running from an earlier search keeps writing into the same cell. `TotalCell` models that overlap for two renders (see Findings) but not for three or more.
- ReportCard.TotalViewOf: gives the total the card means to show. `Search.SearchPage.Search` records this in the page's card, i.e. the intended behaviour rather than a stale count-up's last write.
- In `TotalCell`, totals are numbers: a string total passed through `parseFloat` is not covered. The second render is placed between two ticks of the first timer; how two timers' ticks interleave within one period is not modelled.
- The page's initial state (the HTML markup) is not part of this model. The `SearchPage` and `DownloadButton` constructors state the assumed initial state.

## Findings

| source | as written | input that shows it | evidently intended | confidence | as-written member | corrected member |
|---|---|---|---|---|---|---|
| app.js:186-197 | `animateTotal` keeps its interval in a local variable and never clears a count-up started by an earlier `renderCard` | search a student with total 90, then, within 40 ticks (about 600 ms), a student with no total: "-" is written, then the earlier timer writes on and the cell ends on 90 | a new render stops the earlier count-up, so the cell ends on the later student's total or "-" | not executed | `TotalCell.StaleCountUpWins` | `TotalCell.ClearedShowsLatestRender` |
