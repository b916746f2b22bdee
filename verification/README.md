# BigQuery inspection-query generator, modelled in Dafny

The tool in `app2.py` is a small Streamlit page that turns a spreadsheet-style
list of columns into one BigQuery SQL statement reporting, per column, row
counts, NULL counts, blank-string counts, distinct counts, a missing-rate
percentage and the minimum and maximum value. This project models the three
pieces of that page that compute something:

- **Column-spec parser** (`parse_tsv`, lines 35-44, module `TsvParser`).
  Tab-separated text pasted from a spreadsheet is stripped and split into
  lines. Every line with exactly one tab becomes a `(name, declared type)`
  record. The name is trimmed; the type is trimmed and upper-cased. Every
  other line is dropped.
- **Paste-apply action** (lines 25-29 and 47-52, module `Session`).
  The session's column table starts as two rows with empty names. Pressing
  "apply" replaces the table with the parsed records when there is at least
  one record. Otherwise the table is kept and a warning is shown.
- **Query builder** (lines 93-152, module `QueryBuilder`). A row becomes a
  block when it has a name, has a type, and its type is one of STRING,
  BOOLEAN, INTEGER, FLOAT, TIMESTAMP or DATE (exact, case-sensitive
  comparison). A block is a 15-column `SELECT` over the table. A STRING row
  gets the blank-string count and counts blanks as missing. Every other
  recognised type reports `NULL` for blanks and counts only `NULL` as
  missing. When a date filter is given, each block ends in a WHERE clause.
  Each block template is stripped, and the blocks are joined with
  `"\nUNION ALL\n"`. Nothing is generated while the table reference is
  empty.

The Python string methods the code relies on are modelled with Python's
meaning in module `Strings`:

- `str.strip()` uses the full `str.isspace` set, including the Unicode
  spaces.
- `str.splitlines()` accepts every boundary Python accepts, treats `"\r\n"`
  as one boundary, and adds no empty line after a final boundary.
- `str.split(c)` and `sep.join(parts)`.
- `str.upper()`, on ASCII letters only.

Module `Wrappers` holds `Option`; module `Columns` holds the record type.

## Model

| member | source | states |
|---|---|---|
| Strings.Strip | app2.py:36 | the stripped text is no longer than the input and neither starts nor ends with whitespace |
| Strings.StripBounds | app2.py:36 | what strip keeps is the piece between two whitespace-only margins, and that piece has no whitespace at either end |
| Strings.StripsToUnique | app2.py:36 | there is only one such piece, so strip's result is determined by the margins alone |
| Strings.StripIs | app2.py:36 | any piece framed by whitespace-only margins, with non-space ends, is exactly what strip returns |
| Strings.StripFramed | app2.py:150 | a trimmed text surrounded by whitespace strips back to itself |
| Strings.StripIgnoresMargins | app2.py:36 | adding whitespace around a text does not change its stripped form |
| Strings.StripTrimmed | app2.py:43 | a text with no whitespace at its ends is unchanged by strip |
| Strings.StripIdempotent | app2.py:43 | stripping twice is stripping once |
| Strings.Upper | app2.py:43 | upper-casing keeps the length and maps each character on its own: an ASCII lower-case letter becomes its capital, and every other character (capitals, digits, `_`, spaces) is unchanged |
| Strings.UpperKeepsUpper | app2.py:43 | a text with no ASCII lower-case letter, such as "STRING", is its own upper-case form |
| Strings.UpperKeepsTrimmed | app2.py:43 | upper-casing a trimmed text keeps it trimmed, so the parsed type is both trimmed and upper-case |
| Strings.UpperIdempotent | app2.py:43 | upper-casing twice is upper-casing once |
| Strings.SplitOn | app2.py:40 | `split('\t')` gives one more piece than there are tabs, no piece contains a tab, and joining the pieces with a tab gives back the line |
| Strings.SplitOnNoSeparator | app2.py:39-40 | a line without a tab splits into itself alone |
| Strings.SplitOnFirst | app2.py:40 | the text before the first tab is the first piece, and the rest splits independently |
| Strings.JoinThenSplit | app2.py:40 | splitting tab-joined tab-free pieces gives back those pieces (the round trip in the other direction) |
| Strings.SplitLines | app2.py:36 | there are no more lines than characters, and no line contains a line boundary |
| Strings.SplitLinesAtNewline | app2.py:36 | a "\n" boundary splits off the first line and consumes exactly one character |
| Strings.SplitLinesThenJoin | app2.py:36 | a text whose only boundary is "\n", and that does not end in one, is rejoined by "\n" from its lines |
| Strings.SplitLinesSingle | app2.py:36 | a non-empty text without boundaries is one line |
| Strings.JoinThenSplitLines | app2.py:36 | boundary-free lines whose last line is non-empty, joined by "\n", split back into the same lines |
| Strings.Join | app2.py:152 | joining no parts gives the empty text, and joining one part gives that part |
| Strings.JoinAppend | app2.py:152 | joining two non-empty lists places exactly one separator between the two joined halves |
| Strings.JoinLength | app2.py:152 | a join of N parts is as long as the parts plus N - 1 separators |
| Strings.JoinEmpty | app2.py:152 | a join of non-empty parts is empty exactly when there are no parts |
| Strings.JoinContainsPart | app2.py:152 | every part occurs as a contiguous piece of the join |
| Strings.JoinStartsAndEnds | app2.py:152 | parts that share a prefix and a suffix join into a text with that prefix and that suffix |
| TsvParser.ParseLine | app2.py:39-43 | a line gives a record exactly when it has one tab; the record's name and type are trimmed and the type has no ASCII lower-case letter |
| TsvParser.ParseLineFields | app2.py:40-43 | for a line with one tab, the name is the stripped text before the tab and the type is the stripped, upper-cased text after it |
| TsvParser.LineRecords | app2.py:39-43 | a line contributes one record when it has one tab and none otherwise |
| TsvParser.ParseLines | app2.py:37-44 | there are never more records than lines, and every record is normalised |
| TsvParser.ParseLinesAppend | app2.py:37-44 | the records of concatenated line lists are the concatenated records, so output order follows line order |
| TsvParser.ParseLinesSingle | app2.py:38-43 | a single line gives its record when it has exactly one tab, and nothing otherwise |
| TsvParser.ParseTsv | app2.py:35-44 | the records are at most as many as the lines of the stripped paste, and all are normalised |
| TsvParser.ParseTsvIgnoresMargins | app2.py:36 | whitespace around the whole paste does not change the records, even when it contains tabs |
| TsvParser.ParseTsvLines | app2.py:36-44 | a paste made of "\n"-separated lines, with nothing to strip around it, gives exactly those lines' records in order |
| TsvParser.ParseOneLine | app2.py:35-44 | a one-line paste with one tab gives the one record split at that tab |
| TsvParser.ParseOneLineRejected | app2.py:38-41 | a one-line paste with no tab, or with two or more tabs, gives no record |
| TsvParser.RecordLineTab | app2.py:39-41 | a name and a type without tabs, joined by one tab, have exactly one tab, at the end of the name |
| TsvParser.ParseTsvRecord | app2.py:35-44 | a non-empty, trimmed, tab-free and break-free name and upper-case type, pasted as `name<TAB>type`, parse back to exactly that one record |
| Session.Initial | app2.py:25-29 | a new session's table has two rows, both with empty names |
| Session.Apply | app2.py:47-52 | the warning is shown exactly when the paste gives no record; otherwise the table becomes the parsed records, and after a warning the table is unchanged |
| Session.ApplyIdempotent | app2.py:47-52 | applying the same paste twice leaves the table as applying it once does |
| Session.ApplyKeepsNonEmpty | app2.py:47-52 | a paste never empties a non-empty table |
| Session.ApplyLastWins | app2.py:47-50 | once a valid paste is applied, an earlier paste leaves no trace |
| Session.ApplyNormalises | app2.py:43-50 | after an accepted paste, every row has a trimmed name and a trimmed type with no ASCII lower-case letter |
| QueryBuilder.Classify | app2.py:107-127 | a type selects a branch exactly when it is one of the six labels, and it selects the STRING branch exactly when it is "STRING" |
| QueryBuilder.ClassifyIsCaseSensitive | app2.py:107-127 | "string" and "Date" select no branch |
| QueryBuilder.StrippedTemplateIsBlock | app2.py:108-150 | stripping the triple-quoted template gives the block from `SELECT` to the end of the FROM clause: the leading newline goes, and so do the trailing newline and the space left dangling when there is no WHERE clause |
| QueryBuilder.WhereClause | app2.py:97-100 | the clause is empty exactly when there is no date filter; with one it is a `WHERE DATE(...)` condition |
| QueryBuilder.Exprs | app2.py:109-124 | there is one select expression per output column, in the template's column order |
| QueryBuilder.SelectList | app2.py:109-124 | every one of the 15 select-list lines occurs in the rendered list |
| QueryBuilder.RawBlock | app2.py:108-126 | the template is a leading newline, then the block, then either " \n" (no filter: the empty WHERE clause leaves a space) or "\n" (with a filter) |
| QueryBuilder.BlockFrame | app2.py:108-126 | every block starts with `SELECT` and a newline and ends with the FROM clause |
| QueryBuilder.BlockHasItem | app2.py:109-124 | each of the 15 select-list lines occurs in the block |
| QueryBuilder.ColumnNameShown | app2.py:110 | both branches select the column's name, quoted, as `column_name` |
| QueryBuilder.StringBlankCount | app2.py:120 | a STRING block counts values that are blank after TRIM as `empty_string_count` |
| QueryBuilder.StringMissingRate | app2.py:122 | a STRING block counts NULL or blank values as missing |
| QueryBuilder.ScalarBlankCount | app2.py:140 | a block of any other recognised type reports `NULL` as `empty_string_count` |
| QueryBuilder.ScalarMissingRate | app2.py:142 | a block of any other recognised type counts only NULL values as missing |
| QueryBuilder.TypeLabelShown | app2.py:112 | both branches label the column with its declared type followed by `_ARRAY` |
| QueryBuilder.BranchesShareSchema | app2.py:109-144 | the two branches select the same 15 output columns; they differ in the blank-count and missing-rate columns, and the six placeholder columns are NULL in both |
| QueryBuilder.Usable | app2.py:104-148 | a row yields a block exactly when its name is non-empty and its type is one of the six labels |
| QueryBuilder.RenderRow | app2.py:107-150 | a usable row's block is its branch's triple-quoted template stripped as `select.strip()` does, and it starts with `SELECT` and ends with the FROM clause |
| QueryBuilder.Blocks | app2.py:102-150 | there are never more blocks than rows |
| QueryBuilder.Generate | app2.py:93 | a query is produced exactly when the table reference is non-empty, and it is the joined blocks |
| QueryBuilder.UsableRows | app2.py:104-107 | every kept row is usable, every usable input row is kept, and there are no more kept rows than input rows |
| QueryBuilder.UsableRowsAppend | app2.py:102-107 | filtering a concatenation filters each part in place, so the kept rows keep their input order |
| QueryBuilder.UsableRowsSingle | app2.py:104-107 | a single row is kept exactly when it is usable |
| QueryBuilder.RenderAll | app2.py:107-150 | rendering usable rows one by one gives one block per row |
| QueryBuilder.RenderAllAt | app2.py:107-150 | the k-th rendered block is the block of the k-th row |
| QueryBuilder.BlocksRenderUsable | app2.py:102-150 | the loop's blocks are the usable rows rendered one by one: skipped rows contribute nothing |
| QueryBuilder.BlocksAreUsableRows | app2.py:102-150 | there is one block per usable row, and the k-th block is the k-th usable row's block |
| QueryBuilder.BlocksSingle | app2.py:102-150 | a usable row on its own gives exactly its own block |
| QueryBuilder.BlocksAppend | app2.py:102-150 | the blocks of concatenated row lists are the concatenated blocks, so nothing is reordered, merged or removed |
| QueryBuilder.Build | app2.py:152 | the query is empty exactly when no row is usable; its shape, order and contents are stated by `BuildShape`, `BuildHasRow`, `BuildNamesRow` and `BuildAppend` |
| QueryBuilder.BuildShape | app2.py:152 | with N usable rows the query is as long as the blocks plus N - 1 `UNION ALL` separators, starts with `SELECT` and ends with the FROM clause |
| QueryBuilder.BuildSingle | app2.py:150-152 | the query of one usable row is that row's block, with no separator |
| QueryBuilder.BuildHasRow | app2.py:102-152 | for every input position holding a usable row, that row's block occurs in the query |
| QueryBuilder.BuildNamesRow | app2.py:102-152 | for every input position holding a usable row, the query names that row, so no usable row is dropped |
| QueryBuilder.BuildHasBlock | app2.py:150-152 | the k-th kept row's block occurs in the query |
| QueryBuilder.BuildNamesUsableRow | app2.py:102-152 | the query names the k-th kept row |
| QueryBuilder.BuildAppend | app2.py:152 | the queries of two row lists with usable rows combine with exactly one separator |
| QueryBuilder.DuplicatesKept | app2.py:102-152 | a usable row listed twice gives its block twice, separated by `UNION ALL` |
| Session.InitialTableBuildsNothing | app2.py:104-105 | the table a new session starts with (`Session.Initial`) gives the empty query, because both of its rows lack a name |

## Left out

- The page itself is not modelled. This covers the widgets, messages and titles, the query display (`st.code`) and the download button (lines 153-155). These are user-interface I/O.
- The editable grid (lines 55-58) is not modelled. The user may change the table arbitrarily there, so the builder takes the rows as a parameter, and the paste-apply model ends where the grid begins.
- The date filter is a parameter (`Option<DateFilter>`). The flag `use_date_filter` that selects it is never assigned in the active code, because its checkbox at line 67 is commented out. As written, line 76 therefore fails before a query can be built.
- The date-column selector and the date inputs (lines 76-86) are not modelled. The model takes the column name and both dates as text already formatted for the WHERE clause.
- Grid cells are modelled as strings, and a missing cell as the empty string. For a `None` cell this is exact: `not None` holds, so the row is skipped at lines 104-105 just as for `""`. A pandas `NaN` cell is not modelled. `NaN` is truthy, so it passes line 104. A `NaN` type then falls into the final `continue` (lines 147-148) and contributes nothing. A `NaN` name with a recognised type reaches a block, interpolated as the text `nan`.
- Strings.Upper: maps only ASCII letters. Python's `str.upper()` also maps other scripts, and a few characters become two (`"ß"` becomes `"SS"`). Unicode case tables are out of scope.
- No SQL escaping is modelled, because the source applies none. Names, the table reference and the dates are inserted verbatim.
- When no row is usable, the query is the empty text, and the page reports success and shows it (lines 150-154). The success message is not modelled; `QueryBuilder.Build` states that the query is empty exactly in this case.
- A paste that yields no record keeps the previous table (lines 49-52). The table does not go back to the two placeholder rows. `Session.Apply` states the code's behaviour.
- Python source newlines: the file uses CRLF line endings, and Python reads them as `"\n"` inside the triple-quoted templates. The model writes the templates with `"\n"`.
