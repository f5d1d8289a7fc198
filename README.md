# Large CSV Viewer: verified model of the view engine and the upload path

The viewer is a Dash application, `toodamnbigcsv.py`. A user uploads a CSV or
Excel file, picks the columns to show, and sorts the table by a column
header. This project models the two parts of that file that hold logic:

* **`gen_csvtable`** is the view engine. Each update cycle it gets the table
  in the store, the id of the first triggered property, the column selection,
  the rows currently shown and the DataTable's `sort_by`. It then does one of
  four things:
  * projects the source onto the selection (submit);
  * re-sorts the shown rows by one column (sort);
  * hands the shown rows back (passthrough);
  * empties the table (clear).

  In every case it also returns the selection joined with `", "`.
* **`update_output` / `parse_contents`** is the upload path, together with the
  process-wide `CentralStorage`. It:
  * splits the data URL on `,`;
  * base64-decodes the payload;
  * picks the CSV reader when the file name contains `csv`, else the Excel
    reader when it contains `xls`;
  * replaces the stored table only when a reader returned one.

Modules, leaf first:

* `Wrappers` (wrappers.dfy): `Option` and `Result`.
* `Strings` (strings.dfy): `endswith`, the `in` substring test, `split` on `,`,
  `join`, and the first-occurrence de-duplication of repeated column names.
* `Tables` (tables.dfy): a table is a list of column names plus a list of
  records. Each record is a map from column name to a cell, and the column
  list is also the key order of the records. The module holds projection
  (`df[cols].to_dict('records')`) and single-column sorting (`sort_values`).
  Cells have an abstract type `V`. They are compared by an abstract relation
  `le` that is only assumed to be a total preorder.
* `ViewEngine` (viewengine.dfy): the trigger resolution, the callback itself,
  and one lemma per branch.
* `Upload` (upload.dfy): the store as a class with one mutable field, the
  pure outcome `Parse`, and the two imperative callbacks.

An exception that a callback raises is modelled as an `Err` result. The
foreign decoders are parameters: `base64.b64decode`, UTF-8 decoding,
`pd.read_csv` and `pd.read_excel` are partial functions that return `None`
where they would raise. The store is passed to `gen_csvtable` as its current
value, `source`. The code never reads `gen_csvtable`'s `n_clicks` argument,
only which property triggered, so `GenCsvTable` has no parameter for it.
`parse_contents`' `date` and `update_output`'s `last_modified` are unused too;
they are kept as parameters of `ParseContents` and `UpdateOutput`.

Behaviour of the code worth knowing:

* A failed decode leaves the stored table as it was. It does not reset the
  store to an empty table.
* The sort is pandas' default, which is not stable, so the model promises
  nothing about ties. The model sorts descending with the reversed
  comparison. That is the model's own choice, not how pandas does it; it is
  enough because no contract mentions ties.
* A payload that is not valid base64, or a data URL without exactly one
  comma, raises outside the `try`. These do not produce the error message.

## Model

| member | source | states |
|---|---|---|
| `Strings.ContainsIffOccurs` | toodamnbigcsv.py:129-134 | the `in` test on the file name holds exactly when the substring occurs at some offset |
| `Strings.EndsWith` | toodamnbigcsv.py:176-180 | `p.endswith(suffix)` holds exactly when `p` is some text followed by `suffix` |
| `Strings.Contains` | toodamnbigcsv.py:129-134 | the `in` test only holds when the substring is no longer than the name; `ContainsIffOccurs` gives its full meaning |
| `Strings.Split` | toodamnbigcsv.py:125 | `split(',')` gives one more part than there are commas, and no part contains a comma |
| `Strings.JoinSplit` | toodamnbigcsv.py:125 | joining the parts of a split with the separator gives back the original text |
| `Strings.SplitJoin` | toodamnbigcsv.py:125 | splitting a join of separator-free parts gives back the parts |
| `Strings.Join` | toodamnbigcsv.py:197 | `', '.join` of no names is the empty text and otherwise starts with the first name; `JoinSnoc` and `JoinLength` describe it for any separator, and `JoinSplit` and `SplitJoin` tie it to `split` for one-character separators |
| `Strings.JoinSnoc` | toodamnbigcsv.py:197 | for any separator, joining one more name appends the separator and that name |
| `Strings.JoinLength` | toodamnbigcsv.py:197 | for any separator, the joined text is as long as the names together plus one separator between each two |
| `Strings.Dedup` | toodamnbigcsv.py:177-178 | the key order of the records has no repeats and holds exactly the selected names |
| `Strings.DedupOfNoDup` | toodamnbigcsv.py:177-178 | for a selection without repeats, the key order is the selection itself |
| `Strings.DedupFirstOccurrenceOrder` | toodamnbigcsv.py:177-178 | the record keys follow the order in which the names first occur in the selection |
| `Tables.Missing` | toodamnbigcsv.py:177 | lists exactly the selected names that are not source columns |
| `Tables.EmptyFrame` | toodamnbigcsv.py:119 | `pd.DataFrame(data=[])` is a well-formed table with no rows and no columns |
| `Tables.Project` | toodamnbigcsv.py:177-179 | fails with KeyError exactly when a selected name is not a column; otherwise gives one record per source row, in order, each holding exactly the selected columns with the source's values; an empty selection gives no records, since `to_dict('records')` zips over no columns |
| `Tables.ProjectAllColumns` | toodamnbigcsv.py:177-178 | projecting a table that has columns (or no rows) onto all its columns in their own order gives the table back |
| `Tables.Insert` | toodamnbigcsv.py:182-186 | inserting into rows ordered on the key keeps them ordered and adds exactly that record |
| `Tables.SortRows` | toodamnbigcsv.py:182-186 | the result is a permutation of the input rows and is ordered on the key |
| `Tables.PermutationWellFormed` | toodamnbigcsv.py:181-187 | reordering well-formed records keeps every record's keys equal to the column list |
| `Tables.SortView` | toodamnbigcsv.py:181-188 | fails with KeyError exactly when the sort column is absent; otherwise keeps the columns and gives a permutation of the rows, non-decreasing on the column when the direction is "asc" and non-increasing otherwise |
| `ViewEngine.ColumnSpecs` | toodamnbigcsv.py:179 | one column description per name, in order, with name and id both equal to that name |
| `ViewEngine.SuffixesExclusive` | toodamnbigcsv.py:176-180 | no property id ends in both `n_clicks` and `sort_by` |
| `ViewEngine.Resolve` | toodamnbigcsv.py:176-193 | IndexError only when no trigger is listed; submit only when the source has rows; sort and passthrough only when rows are shown; `ResolveCases` gives each action's exact condition |
| `ViewEngine.ResolveCases` | toodamnbigcsv.py:176-196 | submit exactly when the source has rows and the first trigger ends in `n_clicks`; sort exactly when rows are shown and it ends in `sort_by`; passthrough when rows are shown and neither fired; clear when no rows are shown and no submit fired; IndexError exactly when no trigger is listed and a row count is non-zero |
| `ViewEngine.GenCsvTable` | toodamnbigcsv.py:175-197 | in every branch the shown rows stay well-formed and the summary is the selection joined with ", " |
| `ViewEngine.SubmitBranch` | toodamnbigcsv.py:176-179 | a submit ignores the shown rows and `sort_by`; it fails with KeyError on an unknown column and otherwise shows the projection of the source (no records for an empty selection), with one column description (name and id) per selected name, in selection order |
| `ViewEngine.SubmitAllColumns` | toodamnbigcsv.py:176-179 | submitting all columns of a source that has columns shows the source table unchanged |
| `ViewEngine.SortBranch` | toodamnbigcsv.py:180-188 | a sort uses only `sort_by[0]` (the result equals that of the one-entry list) and gives IndexError when the list is empty; it reorders the shown rows (not the source) by that column in the requested direction and keeps the column list |
| `ViewEngine.PassthroughBranch` | toodamnbigcsv.py:189-192 | shown rows with no submit and no sort come back unchanged, with their own column list |
| `ViewEngine.ClearBranch` | toodamnbigcsv.py:193-196 | with no rows shown and no submit, the table has no rows and no columns |
| `ViewEngine.RerenderIsIdempotent` | toodamnbigcsv.py:189-192 | feeding a non-empty result back with an unrelated trigger hands the same rows back |
| `Upload.FormatBySubstring` | toodamnbigcsv.py:129-136 | CSV when "csv" occurs anywhere in the name; Excel when "xls" occurs and "csv" does not; otherwise no reader |
| `Upload.FormatOf` | toodamnbigcsv.py:129-134 | CSV exactly when the name contains "csv"; Excel only when it contains "xls"; `FormatBySubstring` states the full dispatch |
| `Upload.DecodeAs` | toodamnbigcsv.py:128-139 | an unrecognised name yields no table; the CSV path yields a table only when UTF-8 decoding succeeded; a yielded table is well-formed when the readers give well-formed tables; `ParseCases` states which reader's table it is |
| `Upload.Parse` | toodamnbigcsv.py:123-147 | only ValueError or a base64 error is raised before the `try`; getting past them needs exactly one comma; a decoded table needs a recognised name; `ParseCases` states each outcome exactly, and `CsvBeforeXls`, `XlsOnlyWithoutCsv` and `UnrecognizedNeverDecodes` pin down the dispatch |
| `Upload.ParseCases` | toodamnbigcsv.py:123-145 | a table is decoded exactly when the URL holds one comma, the payload is base64 and the reader chosen by the name (after UTF-8 decoding for CSV) returns that very table; the `except` path exactly when split and base64 succeed but the chosen step fails or no reader is chosen; the base64 error exactly when the payload is not base64 |
| `Upload.ParseNeedsOneComma` | toodamnbigcsv.py:125 | unpacking the split raises ValueError exactly when the data URL does not hold exactly one comma; otherwise the payload is the text after it |
| `Upload.CsvBeforeXls` | toodamnbigcsv.py:129-136 | with "csv" in the name the Excel reader has no influence on the outcome |
| `Upload.XlsOnlyWithoutCsv` | toodamnbigcsv.py:129-136 | with "xls" but no "csv" in the name the UTF-8 decoder and CSV reader have no influence |
| `Upload.UnrecognizedNeverDecodes` | toodamnbigcsv.py:128-145 | a name with neither substring never yields a table; once split and base64 succeed it takes the `except` path |
| `Upload.CentralStorage.constructor` | toodamnbigcsv.py:117-120 | the store starts with the empty DataFrame |
| `Upload.ParseContents` | toodamnbigcsv.py:123-147 | raised exceptions and the `except` path leave the store unchanged (the latter returns the error message and an empty DataFrame); a decoded table replaces the store, and the column names of that table are returned |
| `Upload.UpdateOutput` | toodamnbigcsv.py:156-162 | no contents gives "No File Loaded." and no options, with the store unchanged; otherwise it behaves as `parse_contents` |

## Left out

- The Dash application, stylesheets, fonts, layout and callback registration: these are UI plumbing with no logic.
- The browser-side `filter_action='native'`: it runs in the browser, not in this code.
- The internals of `base64.b64decode`, UTF-8 decoding, `pd.read_csv` (including `low_memory` type inference) and `pd.read_excel`: these are foreign parsers, modelled as partial functions passed in as parameters.
- Floating point, NaN, mixed-type comparison and `na_position`: cells are an abstract type, compared by an abstract total preorder.
- Tie order under sorting: pandas' default sort is not stable, so no contract says which of two equal-keyed records comes first.
- The conversion between records and DataFrames: it is the identity on well-formed tables, where every record has exactly the table's columns, except that a table with rows but no columns gives no records. Lists of records with differing key sets, which pandas would pad with NaN, are not modelled.
- `ParseContents`, `UpdateOutput`: they assume (`YieldsFrames`) that `pd.read_csv` and `pd.read_excel` return tables with distinct column names and records that all have exactly those columns. pandas renames repeated headers and fills every column of every row, so this holds of the real readers; the model does not derive it.
- Column labels are strings. Non-string labels from `read_excel` make line 197 raise TypeError, which is not modelled.
- `callback_context.triggered`: reduced to the list of its `prop_id` strings. Dash never passes an empty list (the first call lists the id `"."`), so the IndexError that `Resolve` gives for an empty list models an input Dash does not produce.
- A `None` file name, which would raise TypeError inside the `try`: the file name is modelled as a string.
- The HTML components that wrap the messages: they are the `Message` constructors.
- What Dash does after a callback raises: the model returns `Err`.
- `print(e)` and `app.run_server`: these are I/O.
- Concurrent access to the process-wide store: the code has no locking.
