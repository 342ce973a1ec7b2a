# sheet.js: row filter, cell classifier, highlight selection and exports

This project is a Dafny model of the decision logic in `sheet.js`, a spreadsheet viewer that
runs in the browser. The viewer shows a dataset as an HTML table. The user names a range of
rows and a list of column letters. The viewer then highlights those cells and records them in
two global arrays. It also filters the rows by emptiness and by the content type of every
value, shows the result, and can export the dataset as CSV.

The model has these modules:

- **Pattern**: the JavaScript character classes the regular expressions use: `\s` is
  ECMAScript WhiteSpace plus LineTerminator, and `.` is anything except a line terminator. It
  also holds a small regular-expression syntax with whole-string match semantics (`Matches`),
  and the three patterns of `checkContentType` written in that syntax. These patterns are the
  reference definitions for the classifier.
- **Classifier**: the character-level predicates `IsWord`, `IsNumber` and `IsLink`, each
  proved to accept exactly the strings its pattern matches. Also the `switch` on the content
  tag.
- **Rows**: the data model. A row is an ordered list of (key, value) fields, so the
  `Object.keys`/`Object.values` order is kept, and a value is a string or `null`. This module
  also holds `isNull`, `checkContentType` and `filterData`. The filter is characterised
  exactly:
  - it keeps the rows the callback accepts, unchanged and in order;
  - under "not null" and content type `all` it keeps the non-null rows of the range;
  - the unused parameters do not change the result.
- **Csv**: `join` and `split`, the CSV body of `downloadAsCSV`, and the round trips between
  them.
- **Table**: the table `displayData` builds (a header `tr` of `th` cells, then one `tr` of
  `td` cells per row), and `trim`. Also the cells `highlightRanges` records, and a `Sheet`
  class that holds:
  - the displayed table;
  - the globals `selectedRows` and `selectedColumns`, which its methods update in place.
- **Sample**: the dataset `fetchData` installs, used as concrete vectors for the filter, the
  classifier, the highlight and the CSV line.

Two index spaces meet in the click handler. `highlightRanges` applies the bound
`[rowRangeFrom - 1, rowRangeTo - 1]` to the `tr` index of the displayed table, and that index
counts the header row. `filterData` applies the same bound to the data index. `Table.GridPicks`
states the consequence: on a table that `displayData` built, a cell of data row `d` is
highlighted iff `d + 1` passes the guard. The filter keeps data row `d` iff `d` passes it.
`Sample.SampleHighlightPicks` and `Sample.SampleFilterRange` show this on the sample data: rows
2 to 3 highlight data rows 0 and 1, while the filter keeps data rows 1 and 2.

The highlight reads whatever table is currently displayed. In the click handler that is the
table shown before the filter runs, because `displayData` comes after `highlightRanges`
(sheet.js:21-25). `Table.Sheet.HighlightRanges` therefore takes its rows from the `content`
field, whatever put them there.

Two details of the code shape the model:

- The link pattern is `^(https?|ftp):\/\/[^\s/$.?#].[^\s]*$`. It has a `.` after the bracket
  class, so at least two characters must follow `://` (characters are Unicode scalar values
  here; see `Classifier.IsLink` under "Left out"): `http://a` is no link. The second
  character may be a space: `http://a b` is a link.
- A token that is blank after trimming gives `td:nth-child(NaN)`, and `querySelector` throws
  on that selector. The model requires every trimmed token to be non-blank (see "Left out").

## Model

| member | source | states |
|---|---|---|
| `Classifier.ContentTypeOf` | sheet.js:68-78 | the tag selects Word, Number or Link iff it is exactly "word", "number" or "link"; every other tag, "all" included, takes the unrestricted default |
| `Classifier.IsWord` | sheet.js:70 | `[a-zA-Z]+` as a predicate: non-empty, and every character an ASCII letter |
| `Classifier.IsNumber` | sheet.js:72 | `\d+` as a predicate: non-empty, and every character an ASCII digit |
| `Classifier.IsLink` | sheet.js:74 | the link pattern as a predicate: one of the three scheme prefixes, then a host start outside whitespace and `/ $ . ? #`, then a character that is not a line terminator, then only non-whitespace |
| `Classifier.Classify` | sheet.js:68-78 | one `case` of the `switch`: the value passes the predicate of its content type, and `All` accepts every value |
| `Classifier.WordIsPattern` | sheet.js:70 | a value is a word iff it matches `^[a-zA-Z]+$`: non-empty and only ASCII letters |
| `Classifier.NumberIsPattern` | sheet.js:72 | a value is a number iff it matches `^\d+$`: non-empty and only ASCII digits |
| `Classifier.LinkIsPattern` | sheet.js:74 | a value is a link iff it matches the link pattern as written. It is `http://`, `https://` or `ftp://`, then a character that is neither whitespace nor one of `/ $ . ? #`, then any character except a line terminator, then only non-whitespace |
| `Classifier.ClassesDisjoint` | sheet.js:70-74 | no value is both a word and a number, and a link is neither |
| `Classifier.EmptyStringFailsRestrictedTypes` | sheet.js:69-77 | the empty string passes only the unrestricted content type |
| `Classifier.HttpLetterHostIsLink` | sheet.js:74 | `http://` followed by a host of at least two ASCII letters and dots, starting with a letter, is a link |
| `Pattern.Matches` | sheet.js:70-74 | whole-string match of a regular expression (both anchors, no flags). The constants `WordPattern`, `NumberPattern` and `LinkPattern` hold the three patterns of the `switch` in this syntax |
| `Pattern.CatLit` | sheet.js:74 | a literal followed by a pattern matches `s` iff `s` starts with the literal and the rest matches the pattern |
| `Pattern.StarCls` | sheet.js:74 | `[k]*` matches exactly the strings whose characters are all in class `k` |
| `Pattern.PlusCls` | sheet.js:70-72 | `[k]+` matches exactly the non-empty strings whose characters are all in class `k` |
| `Pattern.CatAssoc` | sheet.js:74 | grouping of a concatenation does not change what it matches |
| `Pattern.CatAlt` | sheet.js:74 | an alternation followed by a pattern matches iff one of the alternatives followed by it does |
| `Pattern.CatOpt` | sheet.js:74 | an optional part followed by a pattern matches iff the pattern alone or the part followed by it does |
| `Rows.FilterData` | sheet.js:48-58 | the result has no more rows than the input and contains only rows of the input |
| `Rows.TestText` | sheet.js:70-74 | the string `test` examines: a string value as it is, `null` as "null" |
| `Rows.IsBlank` | sheet.js:62 | a value is `''` or `null` |
| `Rows.IsNull` | sheet.js:61-63 | `isNull`: every value of the row is blank, so a row without properties is null |
| `Rows.NullCheck` | sheet.js:53 | the operation "null" asks for a null row, every other operation for a non-null one |
| `Rows.CheckContentType` | sheet.js:66-80 | `checkContentType`: every value of the row, as `test` sees it, passes the content type its tag selects |
| `Rows.InRowRange` | sheet.js:50 | the 0-based index `i` is not below `rowRangeFrom - 1` and not above `rowRangeTo - 1` |
| `Rows.Keeps` | sheet.js:49-56 | the `filter` callback: range guard, then null check and content check |
| `Rows.FilterDataIsOrderedSelection` | sheet.js:48-58 | the result is `data[K[0]], data[K[1]], …` for strictly increasing indices `K`, and `K` holds exactly the indices whose row is in range, passes the emptiness check and passes the content check |
| `Rows.FilterDataMembers` | sheet.js:48-58 | a row is in the result iff some index holds it and the callback accepts it at that index |
| `Rows.FilterDataNullness` | sheet.js:53 | every kept row is null iff the operation is "null" |
| `Rows.FilterDataNone` | sheet.js:49-57 | when the callback accepts no row, the result is empty |
| `Rows.FilterDataSingle` | sheet.js:49-57 | when the callback accepts one row only, the result is that row |
| `Rows.FilterDataEmptyRange` | sheet.js:50 | a range with `from > to`, or one that starts after the last row, keeps nothing |
| `Rows.FilterDataIgnoresColumns` | sheet.js:48-52 | `primaryColumn` and `rangeColumns` never change the result |
| `Rows.FilterDataNotNullAll` | sheet.js:50-53 | under any operation but "null" and content type "all" (or any unknown tag), the result is exactly the non-null rows of the range slice, in order |
| `Rows.KeepsNotNullAll` | sheet.js:50-53 | under not-null and "all", the callback accepts a row iff it is in range and not null |
| `Rows.NonEmptyRowsMembers` | sheet.js:53 | a row is among the non-null rows of a list iff it is in the list and not null |
| `Rows.NonEmptyRowsAllNonNull` | sheet.js:53 | a list without null rows loses nothing to the not-null test |
| `Rows.RangeSliceStep` | sheet.js:50 | the rows in range of `data` are those of `data` without its last row, then the last row if its index passes the guard |
| `Rows.EmptyRowPassesEverything` | sheet.js:61-63 | a row without properties is null and passes every content type, so under "null" it is kept whenever it is in range |
| `Rows.KeptIndicesExact` | sheet.js:49-50 | an index is kept iff the callback accepts the row at that index |
| `Rows.KeptIndicesIncrease` | sheet.js:49 | the kept indices are in bounds and strictly increasing |
| `Csv.Split` | sheet.js:147 | a split always yields at least one piece, and no piece holds the separator |
| `Rows.PlainText` | sheet.js:100 | what `join` and `innerText` write for a value: a string as it is, `null` as the empty string |
| `Csv.Join` | sheet.js:147 | `join` leaves the empty list empty, gives a single part unchanged, and otherwise puts one separator between neighbours |
| `Csv.Fields` | sheet.js:147 | `Object.values(row)` as `join` writes them: one field per value, in key order |
| `Csv.CsvLine` | sheet.js:147 | one line of the export: the row's fields joined by `,` |
| `Csv.CsvLines` | sheet.js:147 | one line per row, in order |
| `Csv.CsvContent` | sheet.js:147 | the export: the lines joined by a line break |
| `Csv.SplitJoin` | sheet.js:147 | splitting what `join` wrote gives back the parts, when there is at least one part and no part holds the separator |
| `Csv.JoinSplit` | sheet.js:147 | joining what `split` cut gives back the string |
| `Csv.CsvRoundTrip` | sheet.js:147 | the export has one line per row, and splitting it on `\n` and then on `,` gives back every row's values in key order, `null` as the empty string. This holds when there is a row, every row has a value, and no value holds `,` or `\n` |
| `Csv.NoSeparatorInJoin` | sheet.js:147 | a character that is not the separator and is in no part is not in the joined string |
| `Table.GridLayout` | sheet.js:88-104 | the table has one `tr` more than there are rows. The first `tr` holds one `th` per key of the first row. `tr` number `i + 1` holds one `td` per value of row `i`, in key order, with `null` shown as the empty string |
| `Table.HeaderRow` | sheet.js:89-94 | the header `tr`: one `th` per key, in key order |
| `Table.DataRow` | sheet.js:96-103 | the `tr` of a row: one `td` per value, in key order, showing `null` as the empty string |
| `Table.Grid` | sheet.js:88-104 | the header `tr` of the first row's keys, then one data `tr` per row |
| `Table.BuildTable` | sheet.js:87-104 | the header loop and the row loops build exactly that table |
| `Table.Sheet.DisplayData` | sheet.js:83-107 | the previous table is cleared. For a non-empty dataset the table of `data` takes its place; for an empty one the call fails and nothing is shown. The selection is untouched either way |
| `Table.TrimStartStrips` | sheet.js:36 | `trimStart` removes a whitespace-only prefix, and all of it |
| `Table.TrimEndStrips` | sheet.js:36 | `trimEnd` removes a whitespace-only suffix, and all of it |
| `Table.TrimStrips` | sheet.js:36 | `trim` leaves no whitespace at either end and removes nothing but whitespace |
| `Table.TrimStart` | sheet.js:36 | `trimStart`: drops leading whitespace |
| `Table.TrimEnd` | sheet.js:36 | `trimEnd`: drops trailing whitespace |
| `Table.Trim` | sheet.js:36-40 | `trim`: both of them |
| `Table.Trimmed` | sheet.js:36-40 | the list of trimmed tokens: entry `k` is the trimmed token `k`, one for one |
| `Table.Position` | sheet.js:36 | the `nth-child` position of a token: its first character's code minus 65, plus 1 |
| `Table.HasTd` | sheet.js:36-37 | the `tr` holds a `td` at that 1-based position |
| `Table.TrimmedMembers` | sheet.js:36-41 | a string is a trimmed token iff some token of the list trims to it |
| `Table.TokenRecorded` | sheet.js:35-42 | one token adds to the two globals exactly its row index and trimmed token when its position holds a `td`, and nothing otherwise |
| `Table.TokenPicks` | sheet.js:35-42 | the cells one `tr` records for a list of trimmed tokens, in token order |
| `Table.RowPicks` | sheet.js:34-43 | the cells of one `tr`: its token cells when its index passes the guard, none otherwise |
| `Table.Picks` | sheet.js:33-44 | the cells of the whole table, `tr` after `tr` |
| `Table.RowsOf` | sheet.js:39 | the row index of every recorded cell, in order |
| `Table.ColumnsOf` | sheet.js:40 | the trimmed token of every recorded cell, in order |
| `Table.TokenPicksMembers` | sheet.js:35-42 | within one row, a cell is recorded iff it carries the row's index, it is a trimmed token, and the token's position `code - 65 + 1` holds a `td` |
| `Table.PicksMembers` | sheet.js:33-44 | a cell is recorded iff its `tr` exists and passes the range guard, its column is a trimmed token, and that position of the `tr` holds a `td` |
| `Table.TokenPicksRow` | sheet.js:35-42 | every cell recorded within a row carries that row's index |
| `Table.PicksRowMajor` | sheet.js:33-44 | recorded row indices stay below the number of `tr`s and never decrease, so the cells are appended row by row |
| `Table.PicksPrefix` | sheet.js:34 | when no `tr` from index `m` on passes the guard, those `tr`s record nothing and the result is that of the first `m` |
| `Table.GridPicks` | sheet.js:29-45 | on a table `displayData` built, a cell of `tr` number `d + 1` is recorded iff `d` is a data row (`d == -1`, the header, never is), `d + 1` passes the range guard, some token trims to its column, and the column's position is within the values of data row `d` |
| `Table.Sheet.constructor` | sheet.js:3-4 | at load time nothing is shown and both globals are empty |
| `Table.Sheet.ResetSelection` | sheet.js:17-18 | both globals become empty; the table is untouched |
| `Table.Sheet.HighlightRanges` | sheet.js:29-45 | each global grows by the recorded cells of every `tr` in range, in table order, and the two keep equal lengths |
| `Table.Sheet.HighlightRow` | sheet.js:35-42 | for one `tr`, each global grows by that row's recorded cells in token order |
| `Sample.SampleNotNullAll` | sheet.js:199-205 | rows 1 to 5 of the sample under not-null and "all" give back the whole sample in order |
| `Sample.SampleNull` | sheet.js:199-205 | under "null" nothing of the sample is kept |
| `Sample.SampleWords` | sheet.js:199-205 | under "word" only the first sample row is kept |
| `Sample.SampleOutOfRange` | sheet.js:199-205 | a range after the last sample row keeps nothing |
| `Sample.SampleHighlightPicks` | sheet.js:199-205 | columns "A, C" over rows 2 to 3 of the displayed sample record `tr`s 1 and 2, which show data rows 0 and 1 |
| `Sample.SampleFilterRange` | sheet.js:199-205 | the filter over rows 2 to 3 of the sample keeps data rows 1 and 2 |
| `Sample.SampleSession` | sheet.js:199-206 | after the sample is displayed, the selection is reset and "A, C" over rows 2 to 3 is highlighted, the globals hold `[1, 1, 2, 2]` and `["A", "C", "A", "C"]` |
| `Sample.SampleNullClearsTable` | sheet.js:24-25 | filtering the shown sample under "null" passes `[]` to `displayData`, which fails and leaves no table |
| `Sample.SampleAddressIsLink` | sheet.js:201 | "http://example.com" is a link |
| `Sample.TextIsNoLink` | sheet.js:74 | "not a url" is no link |
| `Sample.LinkNeedsTwoCharacters` | sheet.js:74 | "http://a" is no link and "http://a b" is one |
| `Sample.NullIsAWord` | sheet.js:70 | a `null` value reads as "null" in the test, so it passes "word" |
| `Sample.ThirtyIsANumber` | sheet.js:70-72 | "30" matches the number pattern and not the word pattern |
| `Sample.SampleCsvLine` | sheet.js:147 | the third sample row exports as "Bob,25," and splits back into its three values |

## Left out

- The DOM and the UI wiring are not modelled. That covers element lookups, `innerHTML`, element creation, cell background colours, the modal dialog and the button handlers (sheet.js:7-26, 182-193). The table is abstracted to the cells of each `tr`. The click handler's sequence of reset, highlight, filter and display is not modelled as one operation; its steps are `ResetSelection`, `HighlightRanges`, `FilterData` and `DisplayData`.
- The form inputs and `parseInt` are not modelled: the row bounds are integers. A `NaN` bound turns off its own side of the reject test at sheet.js:50, so only two `NaN` bounds reject no row. Either `NaN` bound makes sheet.js:34 highlight nothing. This case is outside the model.
- `operationType` is read but never used (sheet.js:12). It has no counterpart.
- The download plumbing is not modelled: `Blob`, object URLs, the synthetic link click, and the file names (sheet.js:110-134, 148-154, 172-178). Only the CSV text is modelled.
- The XLSX export depends on a library that is not part of this model (sheet.js:138-143). The text export depends on `JSON.stringify` (sheet.js:171). Neither is modelled.
- The PDF and image exporters only log (sheet.js:158-167). `fetchData` is an asynchronous stub; its data is used as test vectors only (sheet.js:196-207).
- Values are strings or `null`. Numbers, booleans, objects and the other JavaScript coercions of `RegExp.prototype.test`, `join` and `innerText` are not modelled.
- `Table.Sheet.HighlightRanges`: requires every token to be non-blank after trimming. The source throws only when a blank token is reached in a row that is in range (`td:nth-child(NaN)` is an invalid selector), so a call where no row is in range would not throw. The model does not cover that case. It does not model the throw itself either: the cells of the row that were pushed before the blank token stay recorded, and the click handler stops before `filterData` and `displayData` (sheet.js:21-25). A blank token is easy to produce: an empty column field splits to `[""]`, and a trailing comma adds a blank token.
- `Table.Sheet.HighlightRow`: requires every token to be non-blank after trimming, like `Table.Sheet.HighlightRanges`. In the source, the callback at sheet.js:36 throws at the first blank token, after the row's earlier tokens have pushed their cells. Neither that partial update nor the exception is modelled.
- `Classifier.IsLink`: a character outside the Basic Multilingual Plane counts as one character here. The pattern carries no `u` flag, so JavaScript matches it as two UTF-16 code units. `http://` followed by one such character is a link in JavaScript but not here; followed by one such character and a space it is a link here but not in JavaScript. `IsWord` and `IsNumber` are not affected, because such a character is neither a letter nor a digit under either count.
- `Table.Sheet.DisplayData`: on an empty dataset, sheet.js:85 clears the table and then `Object.keys(data[0])` throws a `TypeError` at sheet.js:89. The model renders that throw as `ok == false` with an empty table; the exception itself is not propagated. The click handler reaches this path whenever the filter keeps nothing. It is also reached before any data is loaded, because `sheetData` starts as `[]` (sheet.js:2) and the call to `fetchData` is commented out (sheet.js:210).
- `Table.Position`: requires a non-empty token. For a blank token `"".charCodeAt(0)` is `NaN`, the selector `td:nth-child(NaN)` is invalid and `querySelector` throws (sheet.js:36); the model has no position and no exception for that case. Also, `charCodeAt(0)` is modelled as the first character's code point. For characters outside the Basic Multilingual Plane, JavaScript would give the first UTF-16 code unit instead.
- `Csv.Fields`, `Table.HeaderRow`, `Table.DataRow`: object keys are taken in the order the row lists them. JavaScript's own ordering of integer-like keys is not modelled.
- `Csv.CsvRoundTrip`: holds only when there is at least one row, every row has at least one value, and no value contains `,` or a line break. An empty dataset exports as "", which splits back to one empty line, and a row without values exports as an empty line, which splits back to one empty field. The export does no quoting, so values holding `,` or a line break do not survive the round trip; the model states only the round trip, not the breakage.
