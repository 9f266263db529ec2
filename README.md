# Requirements management: a Dafny model

This project models the core of a small "data requirements" application. It
has two parts. A React page lets analysts submit requirements and shows
summary charts. A FastAPI server stores the requirements and appends each one
to an Excel workbook. The model covers five parts of the code:

- **Dashboard aggregation** (`dashboard.dfy`, module `Dashboard`). One pass
  over the records counts them by owner and by target datamart, with the
  sentinels `"Unknown"` and `"Unspecified"` for a falsy value. It also
  collects the distinct truthy stewards and owners. The loop is proved
  against reference definitions written independently of it:
  `GroupCounts`, built from `FirstOccurrences` and `Occurrences`, and
  `DistinctTruthy`. The proofs show that each grouping counts every record
  exactly once, that group names are distinct and appear in first-occurrence
  order, and that the distinct counts are bounded.
- **The form page** (`app.dfy`, module `App`). A class `AppState` has the
  page's state fields: `requirements`, `formData`, `loading`, `success` and
  `theme`. Each event handler is a method. `handleSubmit` is asynchronous,
  so it is split into `SubmitStart` (sets `loading` and returns the body of
  the `POST`) and `SubmitSettle` (applies the outcome and clears `loading`).
  The re-fetch that a successful submit starts is a separate event,
  `FetchRequirements`. `HandleSubmit` composes the two halves. Delete only
  filters the cached list and makes no request.
- **Excel append** (`excel.dfy`, module `ExcelHandler`). This module defines
  the 34 `COLUMNS` and the header labels (`_` becomes a space, then Python's
  `str.title()`). A `Worksheet` class holds the cells by (row, column) and
  `max_row`; `max_row` is at least 1, as in openpyxl. The append writes a
  header row into a new workbook, then writes the requirement's row at
  `max_row + 1`. An exception in any step is the parameter `fault`: nothing
  is saved and the result is false.
- **Result mapping** (`processor.dfy`, module `Processor`). `insert_to_excel`
  calls the append once and maps its outcome to `{status, message}`.
- **API handlers** (`api.dfy`, module `Api`). A class `Backend` holds the
  table (id ↦ row), an id counter and the workbook file. It has the create,
  list, get and delete handlers. `GET /requirements` returns only the row
  with the latest `created_at`, or `[]`.

`records.dfy` (module `Records`) holds the shared values: the string-valued
JSON objects, the six-field request and the stored row.

In this revision of the code:

- the form has six fields: attribute, description, domain, source system, source entity and responsible analyst;
- delete removes the record from the page only and calls no endpoint;
- `GET /requirements` returns only the row with the latest `created_at`.

One consequence of the code is proved as a lemma
(`ExcelHandler.CreatedRowHoldsOnlyDescription`). Of the six fields a client
submits, only `description` is one of the 34 workbook columns. So every row
appended for a new requirement holds its description in column 2 and is
empty everywhere else.

## Model

| member | source | states |
|---|---|---|
| `Records.ToDict` | backend/main.py:39 | the request as a dict has exactly the six field names as keys, each mapped to that field's value |
| `Records.FromDict` | backend/schemas.py:4-10 | a body validates iff all six fields are present; the validated request takes each field from the body and ignores other keys |
| `Records.DictRoundTrip` | backend/schemas.py:4-10 | validating the dict of a request gives back the same request |
| `Dashboard.ComputeStats` | frontend/src/AnalyticsDashboard.jsx:11-39 | `total` is the number of records; `pieData`/`barData` are the owner/datamart groups (falsy value under "Unknown"/"Unspecified"); `stewards`/`owners` are the numbers of distinct non-empty values; both groupings sum to `total`; `stewards, owners <= total`; `owners <= |pieData| <= owners + 1` |
| `Dashboard.OwnerKey` | frontend/src/AnalyticsDashboard.jsx:19 | a non-empty key, the owner when it is truthy, else "Unknown" |
| `Dashboard.MartKey` | frontend/src/AnalyticsDashboard.jsx:22 | a non-empty key, the datamart when it is truthy, else "Unspecified" |
| `Dashboard.Increment` | frontend/src/AnalyticsDashboard.jsx:20 | after an increment the name is counted, and there is one more entry iff it was not counted before |
| `Dashboard.IncrementPresent` | frontend/src/AnalyticsDashboard.jsx:20 | incrementing a name already counted changes only its entry, by one, and keeps the order |
| `Dashboard.IncrementAbsent` | frontend/src/AnalyticsDashboard.jsx:20 | a name not yet counted is appended with count 1 |
| `Dashboard.IncrementSum` | frontend/src/AnalyticsDashboard.jsx:20 | each increment raises the total of the counts by exactly one |
| `Dashboard.GroupCountsSnoc` | frontend/src/AnalyticsDashboard.jsx:17-23 | the in-place increment for one more record equals the reference grouping of the longer list |
| `Dashboard.SnocPresent` | frontend/src/AnalyticsDashboard.jsx:19-20 | a key seen before keeps the groups and their order and raises its own count by one |
| `Dashboard.SnocAbsent` | frontend/src/AnalyticsDashboard.jsx:19-20 | a key not seen before appends a group of one after the existing groups |
| `Dashboard.GroupsStep` | frontend/src/AnalyticsDashboard.jsx:17-23 | one more record increments its owner group and its datamart group |
| `Dashboard.DistinctStep` | frontend/src/AnalyticsDashboard.jsx:25-26 | one more record adds its value to a distinct set iff that value is non-empty |
| `Dashboard.GroupCountsSum` | frontend/src/AnalyticsDashboard.jsx:17-30 | every record is counted exactly once: the group values sum to the number of records |
| `Dashboard.GroupCountsShape` | frontend/src/AnalyticsDashboard.jsx:29-30 | group names are pairwise distinct, are exactly the keys that occur, come in first-occurrence order, and each value is the key's number of occurrences (at least 1) |
| `Dashboard.FirstOccurrencesMembers` | frontend/src/AnalyticsDashboard.jsx:29-30 | the first-occurrence list holds exactly the keys that occur, each once |
| `Dashboard.OccurrencesPositive` | frontend/src/AnalyticsDashboard.jsx:20 | a key's count is positive iff the key occurs |
| `Dashboard.DistinctTruthyBound` | frontend/src/AnalyticsDashboard.jsx:25-35 | there are no more distinct stewards (or owners) than records |
| `Dashboard.PieSizeBounds` | frontend/src/AnalyticsDashboard.jsx:19-29 | distinct owners `<=` pie entries `<=` distinct owners + 1 (the extra one is "Unknown") |
| `Dashboard.StatsLaws` | frontend/src/AnalyticsDashboard.jsx:11-39 | the conservation laws together: both sums equal the record count, and the three bounds |
| `Dashboard.EmptyStats` | frontend/src/AnalyticsDashboard.jsx:11-38 | no records give empty charts and zero stewards and owners |
| `Dashboard.Examples` | frontend/src/AnalyticsDashboard.jsx:17-27 | records whose owners are "Finance", "" and "Finance" are grouped as [Finance: 2, Unknown: 1]; stewards A, "", A, B give 2 |
| `App.EmptyForm` | frontend/src/App.jsx:7-14 | the form maps exactly the six field names, each to "" |
| `App.WithField` | frontend/src/App.jsx:76-78 | the named key takes the new value; every other key keeps its value; no key is lost |
| `App.Toggled` | frontend/src/App.jsx:33-35 | the result is "dark" or "light", and it is "light" iff the old theme was "dark" |
| `App.ToggleTwice` | frontend/src/App.jsx:33-35 | toggling twice is the identity on "dark" and "light" |
| `App.InitialTheme` | frontend/src/App.jsx:17-20 | the saved theme if it is truthy, else "dark" |
| `App.WithoutId` | frontend/src/App.jsx:73 | the filtered list is no longer than the old one and none of its records has the deleted id |
| `App.AppState.SubmitEnabled` | frontend/src/App.jsx:202 | the submit button is enabled iff `loading` is false; `SubmitStart` requires it and disables it, `SubmitSettle` enables it again, so at most one submission is in flight |
| `App.WithoutIdMembers` | frontend/src/App.jsx:71-74 | after the filter a record remains iff it was there and its id differs |
| `App.WithoutIdAppend` | frontend/src/App.jsx:73 | the filter distributes over concatenation, so kept records keep their order |
| `App.WithoutAbsentId` | frontend/src/App.jsx:73 | filtering an id that no record has changes nothing |
| `App.WithoutIdIdempotent` | frontend/src/App.jsx:73 | deleting the same id twice is the same as deleting it once |
| `App.AppState.constructor` | frontend/src/App.jsx:6-20 | empty list, the six-field empty form, flags cleared, the initial theme |
| `App.AppState.ToggleTheme` | frontend/src/App.jsx:33-35 | only the theme changes, to its toggle |
| `App.AppState.FetchRequirements` | frontend/src/App.jsx:37-45 | the list becomes the fetched one, or stays as it was when the fetch failed; nothing else changes |
| `App.AppState.SubmitStart` | frontend/src/App.jsx:47-56 | called only when none of the six `required` inputs is empty and the button is enabled (line 202); afterwards the button is disabled, so no second submission starts before this one settles; `loading` is set and the current form is the request body; nothing else changes |
| `App.AppState.SubmitSettle` | frontend/src/App.jsx:58-68 | on an ok response the form is reset to empty, `success` is set and a re-fetch is issued; otherwise the form is kept; `loading` is false and the button is enabled whatever the outcome |
| `App.AppState.SuccessTimeout` | frontend/src/App.jsx:61 | the timer clears `success` and nothing else |
| `App.AppState.HandleDelete` | frontend/src/App.jsx:71-74 | the list loses exactly the records with that id, keeps the rest in order; the other state is unchanged and no request is issued |
| `App.AppState.HandleChange` | frontend/src/App.jsx:76-78 | only the named form key changes |
| `App.HandleSubmit` | frontend/src/App.jsx:47-69 | for a form with every field filled in and no submission in flight, the posted body is the form as it stood; ok resets the form and sets `success`, any other outcome keeps the form and `success` as they were; `loading` ends false; the list and the theme are unchanged |
| `App.EmptyFormIncomplete` | frontend/src/App.jsx:122-198 | the form emptied after an ok response fails the browser's `required` check, so it cannot be posted again until it is filled in |
| `ExcelHandler.ColumnsWellFormed` | backend/process_requirement/excel_handler.py:13-22 | there are 34 columns, pairwise distinct |
| `ExcelHandler.DescriptionColumn` | backend/process_requirement/excel_handler.py:13-22 | `description` is the second column and no other column |
| `ExcelHandler.SharedFields` | backend/process_requirement/excel_handler.py:13-22 | column 2 is "description", and no other submitted field name is a column |
| `ExcelHandler.Spaced` | backend/process_requirement/excel_handler.py:44 | `replace("_", " ")`: same length, no underscore left, every other character kept |
| `ExcelHandler.TitleShape` | backend/process_requirement/excel_handler.py:44 | `str.title()` keeps the length and every non-letter, and changes only the case of each letter |
| `ExcelHandler.Label` | backend/process_requirement/excel_handler.py:44 | a header label is as long as its column name and holds no underscore |
| `ExcelHandler.LabelCapitalisesWords` | backend/process_requirement/excel_handler.py:44 | for a lower-case column name, each `_` becomes a space and each word's first letter is upper-cased |
| `ExcelHandler.LabelRoundTrip` | backend/process_requirement/excel_handler.py:44 | a column name can be recovered from its header label |
| `ExcelHandler.LabelInjective` | backend/process_requirement/excel_handler.py:42-44 | two different column names never get the same header label |
| `ExcelHandler.LabelExampleDataOwner` | backend/process_requirement/excel_handler.py:44 | `data_owner` gives the header "Data Owner" |
| `ExcelHandler.LabelExamplePiiFlag` | backend/process_requirement/excel_handler.py:44 | `pii_flag` gives the header "Pii Flag" |
| `ExcelHandler.Project` | backend/process_requirement/excel_handler.py:51-52 | one value per column, in column order: the requirement's value under that column, or "" when it has no such key |
| `ExcelHandler.AppendRowSpec` | backend/process_requirement/excel_handler.py:50-52 | a row is written at `max_row + 1`, one value per column from column 1; every old cell is unchanged; no other cell appears |
| `ExcelHandler.AppendedSpec` | backend/process_requirement/excel_handler.py:50-52 | the data row holds `requirement.get(col, "")` for each column in column order, at `max_row + 1`; the old rows are unchanged |
| `ExcelHandler.AppendedWellFormed` | backend/process_requirement/excel_handler.py:30-52 | appending a row to the loaded sheet, or to a new one with its header, leaves a well-formed sheet: every cell within `max_row`, and the last row non-empty |
| `ExcelHandler.NewSheetSpec` | backend/process_requirement/excel_handler.py:33-47 | a new workbook's row 1 is the header, one label per column, and its first data row is row 2 |
| `ExcelHandler.ProjectIgnoresOtherKeys` | backend/process_requirement/excel_handler.py:51-52 | the row depends only on the requirement's values under the columns, so other keys never reach the sheet |
| `ExcelHandler.CreatedRowHoldsOnlyDescription` | backend/process_requirement/excel_handler.py:51-52 | the row for a submitted requirement is its description in column 2 and empty elsewhere |
| `ExcelHandler.Worksheet.constructor` | backend/process_requirement/excel_handler.py:34-35 | a new workbook's active sheet has no cells and `max_row` 1 |
| `ExcelHandler.Worksheet.Load` | backend/process_requirement/excel_handler.py:30-32 | a loaded sheet has the saved cells and `max_row` |
| `ExcelHandler.Worksheet.SetCell` | backend/process_requirement/excel_handler.py:52 | one cell is written; `max_row` grows to that row if it lies beyond |
| `ExcelHandler.WriteRow` | backend/process_requirement/excel_handler.py:51-52 | the loop over the columns adds exactly that row's cells to the sheet |
| `ExcelHandler.NewWorksheet` | backend/process_requirement/excel_handler.py:34-47 | a fresh sheet holding exactly the header row: the same sheet as the value `NewSheet` |
| `ExcelHandler.AppendValues` | backend/process_requirement/excel_handler.py:50-52 | writing at `max_row + 1` gives the same sheet as the value `AppendRow` |
| `ExcelHandler.AppendRequirementToExcel` | backend/process_requirement/excel_handler.py:25-59 | returns true iff no step raises; then the saved sheet is the old one (or a new one with a header) plus the requirement's row after the last row; otherwise the file is unchanged |
| `Processor.AttributeText` | backend/process_requirement/processor.py:14 | the text of `requirement.get('attribute')`: the attribute's value, or "None" when the key is absent |
| `Processor.ResultOf` | backend/process_requirement/processor.py:13-16 | status is "inserted" iff the append succeeded, with message `'<attribute>' added to Excel`; otherwise status "error" and message "Failed to insert into Excel" |
| `Processor.InsertToExcel` | backend/process_requirement/processor.py:9-16 | the append is made once with the unmodified requirement; the result is the mapping of its outcome |
| `Api.LatestAfterInsert` | backend/main.py:61-62 | a row created strictly after every stored row is the one and only latest row |
| `Api.Backend.constructor` | backend/main.py:11 | the server starts over the rows already stored (`create_all` keeps existing rows), each under its own id below the id counter, and the existing workbook |
| `Api.Backend.InsertRow` | backend/main.py:40-44 | one row is added under an id no stored row has, holding the submitted fields and the insert time; every other row and the workbook are unchanged |
| `Api.Backend.AppendToWorkbook` | backend/main.py:46-47 | the result is `insert_to_excel` of the dict; the workbook gains the row unless the append fails, and the table is unchanged |
| `Api.Backend.CreateRequirement` | backend/main.py:33-56 | exactly one row is added, under a new id; the echoed requirement has that id, the submitted fields unchanged and `created_at`; `excel_processing` is `insert_to_excel` of the same field dict |
| `Api.Backend.GetRequirements` | backend/main.py:58-62 | the answer is `[]` iff the table is empty; otherwise one stored row whose `created_at` is at least every stored row's |
| `Api.Backend.GetRequirement` | backend/main.py:64-70 | the row with that id, or 404 when there is none |
| `Api.Backend.DeleteRequirement` | backend/main.py:72-80 | a missing id gives 404 and no change; otherwise exactly that row is removed and every other row is kept |

## Left out

- Network and browser I/O become parameters and results, not actions: `fetch`, `localStorage`, the `data-theme` attribute and console logging. A fetch result or submit outcome is passed in, and a request body or re-fetch flag is returned.
- Asynchronous timing: every event is one atomic step (`SubmitStart`, `SubmitSettle`, `FetchRequirements`, `SuccessTimeout`). The 3000 ms delay is not modelled; it is only the event that fires it.
- JSX rendering, the charts, date formatting, percentage labels and colours are presentation.
- `useMemo` caching by identity is left out; `ComputeStats` recomputes the figures from the list.
- `Dashboard.ComputeStats` models first-occurrence key order. A JavaScript object lists integer-like keys (such as an owner named "42") first, in numeric order; this is not modelled.
- `Dashboard.ComputeStats`: an owner or datamart named after a property of `Object.prototype` (`constructor`, `toString`, `valueOf`, `hasOwnProperty`, …) is not modelled. For such a name `counts[name] || 0` reads the inherited function, so the count becomes a string such as `"function toString() { [native code] }1"`. For `__proto__` the read gives `Object.prototype`, and the value computed from it, the string `"[object Object]1"`, is ignored by the `__proto__` setter: no entry is created and the record lands in no group, so the group values fall one short of `total` for each such record. In the program the group values then no longer add up to `total`; the model's `GroupCountsSum` holds only for other names.
- `ExcelHandler.Title` covers ASCII letters only. Python's `str.title()` also changes the case of non-ASCII letters.
- openpyxl styling (fills, fonts, column widths), the sheet title, and the file system are left out. `DATA_DIR.mkdir` runs outside the `try`; if it raised, the error would pass through `insert_to_excel` to the create handler, after the database commit.
- `AppendRequirementToExcel`: all exceptions are the single parameter `fault`, under which nothing is saved. A save that fails halfway and leaves a damaged file is not modelled.
- Requirement dict values are strings; Python allows any value there.
- `ExcelHandler.AppendedSpec`: openpyxl cuts a string cell value to 32,767 characters without raising. The model stores every value whole, so for a longer value its claim that the cell holds `requirement.get(col, "")` overstates what the saved workbook holds.
- `ExcelHandler.AppendRequirementToExcel`: the `fault` parameter is free, so the model does not tie it to the value written. openpyxl raises `IllegalCharacterError` for a string holding an ASCII control character (`\x00`-`\x08`, `\x0b`, `\x0c`, `\x0e`-`\x1f`), so such a value always makes the append return false; the server-side `print` of the error is left out as I/O.
- `Api.Backend.CreateRequirement`: the `String(255)` columns of the table (`attribute`, `domain`, `source_system`, `source_entity`, `responsible_analyst`) are not modelled. PostgreSQL rejects a longer value at `db.commit()`; the request then answers 500, stores no row and makes no workbook append, while the model stores any strings.
- SQLAlchemy sessions, a failing commit, FastAPI routing, CORS, the health-check route and the ISO formatting of `created_at` are left out. Timestamps are integers supplied by the caller, and ids come from a counter.
- `Api.Backend.GetRequirements`: among rows with the same `created_at`, the database may return any one; the contract leaves that choice open.
- `App.jsx` declares a `domains` list that nothing uses.
