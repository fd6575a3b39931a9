# CSV reader of the document dashboard, in Dafny

This project models `parseCSV` from `lib/utils/csvParser.ts`, the reader that turns an uploaded CSV text into rows. It proves properties of that model.

The reader works like this:
- It cuts the text into lines at `'\n'`.
- The first line, cut at `','` with each piece trimmed, gives the column names.
- Every later line is trimmed. Blank lines are skipped.
- Each other line is cut at `','`. Each column name is bound to the trimmed value at the same position, or to `''` if the line is too short.
- Values past the last column are dropped.
- If a column name repeats, the later column overwrites the earlier one.
- There is no quoting or escaping: this is not RFC 4180.

The model has two modules:

- `JsStrings` (`js_strings.dfy`) holds the two JavaScript string operations the reader relies on:
  - `Split` is `String.prototype.split` with a one-character separator. There is always at least one piece, and empty pieces are kept.
  - `Trim` is `String.prototype.trim` over ECMAScript's WhiteSpace and LineTerminator code points. These are tab, LF, VT, FF, CR, space, NBSP, the Unicode space separators, LS, PS and the byte-order mark.
  - Around them sit a round trip with `Join`, a count of the pieces, and the facts about trimming the parser depends on.
- `CsvParser` (`csv_parser.dfy`) holds:
  - the specification: `HeaderNames`, `Cell`, `BuildRow`, `RowOf`, `DataRows`, `CsvRows`, `NonBlankLines` and `RowsOf`;
  - the method `ParseCSV`, which keeps the source's two nested loops (lines, then columns) and is proved to return `CsvRows(text)`;
  - lemmas stating what the reader promises.

A row is a `map<string, string>`.

Every data line that trims to nothing is skipped wherever it stands, not only at the end of the text (see `BlankLinesNoRows` and `DataRowsFollowLines`).

## Model

| member | source | states |
|---|---|---|
| `CsvParser.ParseCSV` | lib/utils/csvParser.ts:5-28 | The two nested loops return exactly `CsvRows(text)`: one row per non-blank line after the first, each filled column by column |
| `CsvParser.CsvRows` | lib/utils/csvParser.ts:5-28 | Definition of what `parseCSV` returns. Its contract: there are fewer rows than lines, because the first line never yields a row. `CsvRowsFollowLines` states the rows themselves |
| `CsvParser.CsvRowsFollowLines` | lib/utils/csvParser.ts:13-24 | The rows are the rows of the non-blank lines after the first, one each and in line order. The row count equals the number of such lines |
| `CsvParser.DataRowsFollowLines` | lib/utils/csvParser.ts:13-24 | For any list of data lines, the loop's result equals dropping the blank lines first and then reading each remaining line. So the k-th row comes from the k-th line that is not blank once trimmed |
| `CsvParser.DataRows` | lib/utils/csvParser.ts:13-25 | No list of data lines yields more rows than it has lines |
| `CsvParser.NonBlankLines` | lib/utils/csvParser.ts:14-15 | The lines kept by the blank-line test, in order. There are never more of them than input lines |
| `CsvParser.NonBlankLinesSpec` | lib/utils/csvParser.ts:14-15 | A line is kept exactly when it is one of the input lines and does not trim to empty: every kept line is non-blank, and every non-blank line is kept |
| `CsvParser.FirstLineIsHeader` | lib/utils/csvParser.ts:6-13 | For `first + '\n' + rest`, the first line only supplies the column names. The rows are exactly those of the lines of `rest` |
| `CsvParser.NoNewlineNoRows` | lib/utils/csvParser.ts:6-13 | A text with no newline (the empty text included) gives an empty result |
| `CsvParser.BlankLinesNoRows` | lib/utils/csvParser.ts:13-16 | Data lines that all trim to empty give no rows at all |
| `CsvParser.HeaderLineOnlyNoRows` | lib/utils/csvParser.ts:6-16 | A header line followed by a single newline also gives an empty result, because the empty last line is skipped |
| `CsvParser.RowCountBound` | lib/utils/csvParser.ts:6-24 | There are never more rows than newlines in the text |
| `CsvParser.HeaderNames` | lib/utils/csvParser.ts:10 | Definition of the column names. Its contract: one name per comma-separated piece of the first line, so always at least one, and reading the header never fails. `HeaderNamesSpec` states the names themselves |
| `CsvParser.HeaderNamesSpec` | lib/utils/csvParser.ts:10 | There is one column name per comma-separated piece of the first line, so one more than its commas. Each name is that piece trimmed, holds no comma and is already trimmed |
| `CsvParser.Cell` | lib/utils/csvParser.ts:21 | Definition of the value read for column `j`: the trimmed value, or `''` when it is missing. Its contract: a cell is never longer than its value, and it is empty past the end of the values. `CellSpec` states it exactly |
| `CsvParser.CellSpec` | lib/utils/csvParser.ts:21 | Past the end of the values a cell is `''`. Otherwise the value is whitespace, then the cell, then whitespace, and the cell is already trimmed |
| `CsvParser.BuildRow` | lib/utils/csvParser.ts:18-22 | Definition of the inner loop's row, column by column. Its contract: the row binds no name other than a column name. `BuildRowKeys` and `BuildRowLookup` state its keys and values |
| `CsvParser.RowOf` | lib/utils/csvParser.ts:14-22 | Definition of the row of one data line: trim, cut at commas, build. Its contract: the row binds no name other than a column name. `RowOfLookup` states its keys and values against the raw line |
| `CsvParser.BuildRowKeys` | lib/utils/csvParser.ts:18-22 | The inner loop's row binds exactly the set of column names, whatever the values |
| `CsvParser.DataRowsKeys` | lib/utils/csvParser.ts:13-24 | Every row built from a list of data lines has exactly the column names as keys |
| `CsvParser.CsvRowsKeys` | lib/utils/csvParser.ts:10-24 | Every parsed row's key set is the set of header names, however many values its line has |
| `CsvParser.BuildRowLookup` | lib/utils/csvParser.ts:20-22 | A column that no later column renames holds the trimmed value at its position, or `''` past the end of the values |
| `CsvParser.RowOfLookup` | lib/utils/csvParser.ts:14-22 | Stated against the raw line: the row's keys are the column names. Column `j` holds the line's `j`-th comma-separated value trimmed, or `''` when the line has fewer values (short lines are padded) |
| `CsvParser.DuplicateHeaderLastWins` | lib/utils/csvParser.ts:20-22 | If a column name repeats, the row holds the value of the last column with that name |
| `CsvParser.ExtraFieldsIgnored` | lib/utils/csvParser.ts:17-22 | Appending `','` and more fields to a line that already has a value for every column leaves `RowOf` of that line unchanged |
| `CsvParser.BuildRowSameCells` | lib/utils/csvParser.ts:20-22 | A row depends only on the trimmed values at the column positions |
| `CsvParser.CellsOfLine` | lib/utils/csvParser.ts:14-21 | Trimming the whole line before cutting it changes no trimmed value. The line-level trim only matters for telling blank lines apart |
| `JsStrings.Split` | lib/utils/csvParser.ts:6 | `split` never returns an empty list, and no piece contains the separator |
| `JsStrings.SplitCount` | lib/utils/csvParser.ts:17 | A text with `k` separators splits into `k + 1` pieces: every comma cuts a field, with no quoting |
| `JsStrings.JoinSplit` | lib/utils/csvParser.ts:6 | Joining the pieces with the separator restores the text |
| `JsStrings.SplitJoin` | lib/utils/csvParser.ts:17 | Pieces that hold no separator are recovered by splitting their join |
| `JsStrings.SplitAtSep` | lib/utils/csvParser.ts:17 | The pieces of `x + sep + y` are the pieces of `x` followed by those of `y` |
| `JsStrings.SplitWithoutSep` | lib/utils/csvParser.ts:6 | A text without the separator is one piece |
| `JsStrings.Trim` | lib/utils/csvParser.ts:14 | Definition of `trim` as `trimStart` then `trimEnd`. Its contract: the trimmed text is no longer than the input. `TrimEnds` and `TrimSlice` determine it fully |
| `JsStrings.TrimStartSuffix` | lib/utils/csvParser.ts:14 | `trimStart` keeps a suffix of the text that does not start with whitespace |
| `JsStrings.TrimEndPrefix` | lib/utils/csvParser.ts:14 | `trimEnd` keeps a prefix of the text that does not end with whitespace |
| `JsStrings.TrimEnds` | lib/utils/csvParser.ts:14 | A non-empty trimmed text neither starts nor ends with whitespace |
| `JsStrings.TrimSlice` | lib/utils/csvParser.ts:14 | The input is whitespace, then the trimmed text, then whitespace |
| `JsStrings.TrimBlank` | lib/utils/csvParser.ts:14-15 | A line trims to empty exactly when every character in it is whitespace |
| `JsStrings.TrimUnique` | lib/utils/csvParser.ts:14 | Padding a text that has no whitespace at either end with whitespace, then trimming, gives the text back |
| `JsStrings.TrimIdempotent` | lib/utils/csvParser.ts:10 | Trimming twice is the same as trimming once |
| `JsStrings.TrimPadded` | lib/utils/csvParser.ts:14 | Whitespace added on either side does not change the trimmed text |
| `JsStrings.TrimThenSplit` | lib/utils/csvParser.ts:14-17 | Cutting a trimmed text at a non-whitespace separator gives as many pieces as cutting the text itself, and each piece trims to the same value |

## Left out

- The rest of the repository is not part of this model:
  - the React components;
  - the document hooks and HTTP client;
  - the commented-out document routes;
  - the chat route with its keyword heuristics, which reads CSV through Papa Parse rather than `parseCSV` and uses floating-point averages.
- `CsvParser.ParseCSV`: a row is a Dafny `map`, not a JavaScript object, so three things about the object are not modelled:
  - a header named `__proto__` (assigning a string to it does not create a key);
  - the object's key enumeration order;
  - the `any[]` return type.
- `JsStrings.Trim`: the whitespace set is fixed to the current Unicode space separators. An engine built on an older Unicode version (one that still counts U+180E) can trim differently.
- `JsStrings.Split`: Dafny characters are Unicode scalar values, not UTF-16 code units, so lone surrogates cannot be expressed. Splitting on `','` and `'\n'` and trimming are unaffected by this.
- The `|| ''` in `values[j]?.trim() || ''` is not modelled separately. `trim` always yields a string, and `''` is already the only falsy one.
- Reading the uploaded file and any I/O around the parser are not modelled. The parser takes the text as a parameter.
