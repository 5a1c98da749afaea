# ML Data Preprocessing page — a Dafny model of its table logic

The page lets a user upload one or more CSV files. It merges them into one
table, pages through the table with an optional search, reports unique and
duplicate records, reports how many records each column holds, and exports
the table with an option to lowercase its text. This project models the
logic behind those steps on an abstract table: named columns, and rows of
tagged cells (text, integer, boolean, missing). It proves what each step
computes.

The modules follow the parts of the page:

- `Text` models the string operations the page uses: ASCII `lower`, literal
  `contains`, `split` and `[-1]`.
- `Tables` models the table, its cells, and how a cell is rendered as a
  string.
- `Analysis` models the pie-chart counts (`generate_pie_chart`) and the
  column-shape bar chart (`display_column_shapes`).
- `Browse` models the search filter and the page slicing
  (`display_data_with_pagination`).
- `Export` models the lowercase option of `download_clean_data`.
- `Ingest` models four things:
  - the extension test;
  - the `merge_data_files` loop, as a method with a loop invariant;
  - `pd.concat`, as an outer union of columns where cells a file lacks are
    missing;
  - the upload dispatch: nothing uploaded, one file, or several files.
- `Scenarios` holds concrete instances: file names, a two-file merge, and
  the counts of a small table.

Four behaviours of the page are easy to misread:

- An empty upload list is not an error raised by the merge. The page's
  `if uploaded_files:` guard simply renders nothing more. This is
  `Err(NothingUploaded)` in `LoadUploads`.
- `merge_data_files` fails only when no file passes the extension test,
  because `pd.concat([])` raises. This is `Err(NoObjectsToConcatenate)`.
- A single uploaded file is read directly, with no extension test.
- The column-shape chart reports, for every column, the length of that
  column, which is the row count of the table. It is not a count of
  non-missing cells.

## Model

| member | source | states |
|---|---|---|
| Text.Lower | ml_01_data_preprocessing.py:61 | lowercasing keeps the length, folds each character on its own, leaves no capital letter, and fixes strings that are already lower case |
| Text.LowerIdempotent | ml_01_data_preprocessing.py:32 | lowercasing twice equals lowercasing once |
| Text.Contains | ml_01_data_preprocessing.py:9 | the substring test is true exactly when the query occurs at some index of the text |
| Text.Split | ml_01_data_preprocessing.py:61 | a split has at least one piece, exactly one when the separator is absent, and no piece holds the separator |
| Text.JoinSplit | ml_01_data_preprocessing.py:61 | joining the pieces of a split with the separator gives back the original string |
| Text.LastPieceIsAfterLastSeparator | ml_01_data_preprocessing.py:61 | `split(sep)[-1]` is a suffix without the separator, and it is either the whole string or preceded by the separator |
| Text.LastPieceWithoutSeparator | ml_01_data_preprocessing.py:61 | a name without a dot is its own last piece |
| Text.LastPieceAfterSeparator | ml_01_data_preprocessing.py:61 | the last piece of `p + "." + e` is `e` when `e` has no dot |
| Text.LastPiece | ml_01_data_preprocessing.py:61 | `s.split(sep)[-1]`, a definition; LastPieceIsAfterLastSeparator states which text it is |
| Tables.Render | ml_01_data_preprocessing.py:9 | the string form `astype(str)` gives a cell: the text itself, the decimal form of an integer, "True"/"False", or "nan" for a missing value; a definition |
| Analysis.DropDuplicates | ml_01_data_preprocessing.py:19 | the deduplicated rows are distinct, hold exactly the rows of the table, and are no more numerous |
| Analysis.DropDuplicatesKeepsAllIff | ml_01_data_preprocessing.py:19 | deduplication keeps every row if and only if no row repeats |
| Analysis.DropDuplicatesCountsDistinctRows | ml_01_data_preprocessing.py:19 | the number of rows kept by deduplication equals the number of distinct rows |
| Analysis.GeneratePieChart | ml_01_data_preprocessing.py:17-27 | total is the row count; unique + duplicate = total; unique is the number of distinct rows; duplicate is 0 if and only if no row repeats; a non-empty table has at least one unique row |
| Analysis.IdenticalRows | ml_01_data_preprocessing.py:18-20 | n copies of one row give 1 unique record and n - 1 duplicates |
| Analysis.ColumnCells | ml_01_data_preprocessing.py:46 | `df[col]`, the cells of one column top to bottom, a definition; DisplayColumnShapes states its length |
| Analysis.DisplayColumnShapes | ml_01_data_preprocessing.py:43-47 | one pair per column, in column order, each holding the column name and the row count |
| Browse.CellMatches | ml_01_data_preprocessing.py:9 | `str.contains(search_query, case=False)` on one cell's string form, a definition; Contains states what the substring test means |
| Browse.RowMatches | ml_01_data_preprocessing.py:9 | the `.any()` over a row's cells, a definition; Search keeps exactly the rows for which it holds |
| Browse.Filtered | ml_01_data_preprocessing.py:8-9 | the table paged through: the search result when a query was typed, the table otherwise, a definition; DisplayDataWithPagination is stated against it |
| Browse.LastPage | ml_01_data_preprocessing.py:11 | the selector's `max_value`, `len // pageSize + 1`, a definition; PageArithmetic and PageSizes state what the pages up to it hold |
| Browse.Search | ml_01_data_preprocessing.py:9 | the searched rows are no more than the input's; every kept row is an input row with a matching cell; every input row with a matching cell is kept |
| Browse.SearchDistributes | ml_01_data_preprocessing.py:9 | the search of a concatenation is the concatenation of the searches, so the relative row order is kept |
| Browse.SearchKeepsAllIff | ml_01_data_preprocessing.py:9 | the search returns its input unchanged if and only if every row matches |
| Browse.EmptyQueryKeepsRowsWithCells | ml_01_data_preprocessing.py:8-9 | the empty query would keep every row that has a cell, so the `if search_query` guard matters only for rows without cells |
| Browse.PageArithmetic | ml_01_data_preprocessing.py:11-13 | for a page inside the selector's range: its start is within the table, the next page starts `pageSize` later, a page before the last ends within the table, and the last page starts `len % pageSize` rows before the end |
| Browse.Page | ml_01_data_preprocessing.py:12-14 | a page starts within the table, holds at most `pageSize` rows, and holds only rows of the table |
| Browse.PageIsSlice | ml_01_data_preprocessing.py:12-14 | page p is the run of consecutive rows starting at `(p - 1) * pageSize`, of length `pageSize` or the rest of the table |
| Browse.DisplayDataWithPagination | ml_01_data_preprocessing.py:6-14 | the shown rows are the selected page of the filtered table, at most `pageSize` of them, all from the input; when a query was typed, each has a matching cell |
| Browse.PagesFromIsSuffix | ml_01_data_preprocessing.py:11-14 | pages p to the last, read in order, are the rows from the start of page p to the end of the table |
| Browse.PagesCoverRows | ml_01_data_preprocessing.py:11-14 | the pages the selector offers, read in order, are exactly the table, so each row is on exactly one page |
| Browse.PageSizes | ml_01_data_preprocessing.py:11-14 | every page before the last is full, and the last page is empty if and only if the row count is a multiple of the page size |
| Export.LowerCell | ml_01_data_preprocessing.py:32 | the `applymap` callback: lowercase a text cell, return any other cell as it is, a definition; LowercaseTable states its effect on every cell |
| Export.LowercaseTable | ml_01_data_preprocessing.py:32 | headers and shape are unchanged; text cells stay text and become the lowercase of their text; every other cell is unchanged; validity is preserved |
| Export.DownloadCleanData | ml_01_data_preprocessing.py:30-34 | without the option the export is the table itself; with it, the export is the lowercased table and holds no capital letter in any text cell; the shape is kept |
| Export.LowercaseIdempotent | ml_01_data_preprocessing.py:32 | lowercasing a lowercased table changes nothing |
| Export.DownloadIdempotent | ml_01_data_preprocessing.py:30-32 | the lowercase export of a lowercase export is that export |
| Ingest.FileExtension | ml_01_data_preprocessing.py:61 | `name.split('.')[-1].lower()`, a definition; IsCsvIff states what it selects |
| Ingest.IsCsv | ml_01_data_preprocessing.py:61-62 | the test `file_extension == 'csv'`, a definition; IsCsvIff characterises it without the split |
| Ingest.Merge | ml_01_data_preprocessing.py:58-65 | `merge_data_files` as a function, a definition; MergeOutcome states its result and MergeDataFiles is proved equal to it |
| Ingest.IsCsvIff | ml_01_data_preprocessing.py:61-62 | a file passes the test exactly when the text after its last dot (the whole name when there is none) reads "csv" in any case |
| Ingest.KeptTables | ml_01_data_preprocessing.py:59-63 | when every upload parsed to a valid table, every kept table is valid |
| Ingest.KeptTablesStep | ml_01_data_preprocessing.py:60-63 | one more file adds its table to the kept list exactly when its lowercased extension is "csv" |
| Ingest.KeptTablesDistributes | ml_01_data_preprocessing.py:59-63 | keeping distributes over concatenation of the upload lists, so the upload order is kept |
| Ingest.KeptTablesSingle | ml_01_data_preprocessing.py:61-63 | a single file is kept exactly when it passes the test |
| Ingest.KeptTablesEmptyIff | ml_01_data_preprocessing.py:59-63 | nothing is kept if and only if no file passes the test |
| Ingest.KeptTablesFromCsvFiles | ml_01_data_preprocessing.py:62-63 | every kept table is the table of a file that passes the test |
| Ingest.KeptTablesHoldsCsvFile | ml_01_data_preprocessing.py:62-63 | the table of every file that passes the test is kept |
| Ingest.UnionColumns | ml_01_data_preprocessing.py:64 | the merged header starts with the first table's columns, holds exactly the columns of both tables, and stays free of repeats |
| Ingest.UnionColumnsOrder | ml_01_data_preprocessing.py:64 | the labels the union adds after the first table's columns are labels of the second table that the first lacks, in the order of their first appearance in the second table |
| Ingest.Align | ml_01_data_preprocessing.py:64 | a re-laid row has one cell per merged column: the row's own cell for a column it has, missing otherwise |
| Ingest.AlignSelf | ml_01_data_preprocessing.py:64 | re-laying a row under its own distinct columns changes nothing |
| Ingest.ConcatTwo | ml_01_data_preprocessing.py:64 | concatenating two valid tables gives a valid table. Its header is the first table's columns followed by the second table's new columns in their order of first appearance, and it holds exactly the columns of both. Its rows are the first table's rows, then the second's, each re-laid under that header |
| Ingest.ConcatTables | ml_01_data_preprocessing.py:64 | concatenating a non-empty list gives a valid table with the sum of the row counts, whose columns are exactly the columns of the inputs |
| Ingest.ConcatSameColumns | ml_01_data_preprocessing.py:64 | when all inputs share their columns, the result has those columns and the inputs' rows, input after input |
| Ingest.ConcatTablesRows | ml_01_data_preprocessing.py:64 | the result's rows are the rows of the inputs, input after input, each re-laid under the merged columns |
| Ingest.MergeOutcome | ml_01_data_preprocessing.py:58-65 | the merge fails if and only if no file passes the test, and then with the empty-concatenation error. Otherwise it gives a valid table whose rows are the kept files' rows in upload order, and whose columns are exactly the columns of the files that pass the test |
| Ingest.MergeAllCsvSameColumns | ml_01_data_preprocessing.py:58-65 | when every upload is a CSV file and all share their columns, the merge is those columns over the files' rows in upload order |
| Ingest.MergeDataFiles | ml_01_data_preprocessing.py:58-65 | the loop's result equals the merge of the uploads, and it fails exactly when no file passes the test |
| Ingest.LoadUploads | ml_01_data_preprocessing.py:77-83 | no uploads give nothing; one upload gives its table with no extension test; several give the merge; any table produced is valid |
| Scenarios.UpperCaseExtensionIsCsv | ml_01_data_preprocessing.py:61-62 | "a.CSV" passes the extension test |
| Scenarios.DoubleExtensionIsNotCsv | ml_01_data_preprocessing.py:61-62 | "x.csv.gz" does not pass the extension test |
| Scenarios.BareNameCsvIsCsv | ml_01_data_preprocessing.py:61-62 | the name "csv", which has no dot, passes the extension test |
| Scenarios.DotCsvIsCsv | ml_01_data_preprocessing.py:61-62 | every name ending in ".csv" passes the extension test |
| Scenarios.MergeTwo | ml_01_data_preprocessing.py:58-65 | two CSV files with the same columns merge to the first file's rows followed by the second's |
| Scenarios.MergeExample | ml_01_data_preprocessing.py:58-65 | files holding (1, Bob), (1, Bob) and (2, Amy) merge to those three rows in upload order |
| Scenarios.CountExample | ml_01_data_preprocessing.py:17-27 | that merged table has 2 unique records, 1 duplicate and 3 in total |

## Left out

- Streamlit widgets, markdown, headings and the footer are rendering only. The text input, number input, checkbox and button values are parameters of the model.
- Plotly figures are not modelled. Only the numbers the charts are built from are modelled.
- CSV parsing (`pd.read_csv`), its parse errors, and the CSV writing and UTF-8 encoding behind the download button are I/O. An uploaded file is modelled as a name plus the table the parser produced.
- `display_data_summary` (`df.describe()`, lines 53-55) is not modelled. It computes floating-point statistics.
- Browse.Search: a literal substring test. `str.contains` by default reads the query as a regular expression, which is not modelled.
- Browse.CellMatches: case folding is ASCII only. Unicode lowercasing is not modelled.
- Analysis.DropDuplicates: two cells are equal only when they are the same tagged value, so `Bool(true)` and `Num(1)` differ. Python compares `True == 1` and `False == 0`, so after a merge that puts a boolean column and an integer column under one header, pandas counts such rows as duplicates and the model does not.
- Floating-point cells, and the float and dtype changes `pd.concat` makes when it fills missing columns, are not modelled. A missing value renders as "nan".
- How `astype(str)` renders other types, and the row index pandas keeps, are not modelled. The index is not a cell, so it never matches a search.
- Browse.DisplayDataWithPagination: the page number must lie in 1..len // pageSize + 1. The number-input widget enforces this range, so it appears as a precondition. `pageSize > 0` is also a precondition: the page only uses the default of 10.
- The uploader's `type=["csv"]` filter at line 75 is browser-side. The model accepts any file names, which is why the extension test inside `merge_data_files` matters.
