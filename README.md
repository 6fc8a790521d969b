# WWE title histories, modelled in Dafny

The repository scrapes Wikipedia's WWE title-history tables and loads them
into DuckDB. This project models the part of it that transforms the tables
and proves properties of that model. There are two pipelines.

- **The WWE Championship pipeline** (`main.py`, `main()`):
  - takes the table at index 2 of the championship page's list of tables
    (the page fails when it has fewer than three) and flattens its
    two-level header to lower-case labels;
  - keeps the rows whose reign number `no.` is numeric;
  - drops the columns labelled like the last two;
  - splits the distinct champions, events and locations into dimension
    tables with surrogate keys 1, 2, 3, … in order of first appearance;
  - replaces those three columns in the fact table by the keys;
  - converts the numeric and date columns and stamps the title name;
  - renames `no.` to `no` and `days recog.` to `days_recognized`.
- **The multi-source pipeline** (`wwe_wikis/titles.py`, `titles()`) runs
  over fourteen title pages in a fixed order. For each page it:
  - picks the table that holds the history (index 3, 1 or 2 of the
    page's list of tables, depending on the page);
  - flattens the header;
  - for the twelfth page only, inserts a missing `days recog.` column after
    `days`;
  - keeps the numbered rows and the columns up to `notes`;
  - renames `no.` to `title_reign` and `days recog.` to `days_recognized`;
  - converts reign, date and the two day counts, rewriting the "<1"
    sentinel as 0 first;
  - stamps the title name;
  - appends the result. The first failure stops the run.

Tables are modelled as a header (a sequence of labels) and rows of cells.
A cell is text, missing, an integer or a calendar date.

The modules are:
- `Tables`: tables, labels and the column operations of the data-frame
  library.
- `Schema`: flattening, the numeric-row filter, the drop by label, the
  insert after an anchor and the cut at `notes`.
- `Coercion`, `Numeric`, `Dates` and `Text`: `to_numeric`, the date
  pattern `%B %d, %Y` and `str.replace("<1", "0")`.
- `Dimensions`: `unique`, the surrogate keys and the key rewrite.
- `Frames`: a mutable data frame for the in-place steps.
- `Champions` and `Titles`: the two pipelines.

Each pipeline is given twice: as functions, and as the step-by-step
methods the program runs (`LoadChampionship`, `LoadSource`,
`LoadTitles`). Each method is proved equal to its functions.

Two behaviours of the multi-source pipeline are worth stating up front:
- It never converts the reign number it renames to `title_reign`. That
  column keeps the numeric text of each row
  (`Titles.ReignNumberKeptAsText`), not an integer.
- It builds no dimension tables. Champion, event and location stay as
  text there.

## Model

| member | source | states |
|---|---|---|
| Text.Lower | main.py:25 | the lower-cased text has the same length and no capital letter; each capital becomes the small letter whose capital it is, and every other character is kept |
| Text.LowerProperties | main.py:25 | lower-casing keeps the length, leaves no capital letter, changes only capitals, turns each capital into its own small letter, and is idempotent |
| Text.LowerExample | main.py:25 | "Reign" and "REIGN" both become "reign" |
| Schema.FlattenLabels | main.py:25 | each flattened label is the lower-cased second-level label; one label per column |
| Schema.FlattenIgnoresGroups | main.py:25 | the flattened header does not depend on the dropped first level |
| Frames.Frame.SetColumns | main.py:25 | replacing the header in place keeps every row and installs exactly the new labels |
| Schema.KeepNumeric | main.py:26-27 | a row is kept if and only if its reign-number cell converts to a number; no row is invented (the same filter serves wwe_wikis/titles.py:59) |
| Schema.FilterNumeric | main.py:26-27 | the filtered table keeps the header, and its rows are the rows the reign-number mask keeps |
| Schema.KeepNumericInOrder | main.py:26-27 | the kept rows keep their original relative order, in both pipelines |
| Schema.KeepNumericOne | main.py:26-27 | the mask is decided row by row: a single row survives exactly when its reign number is numeric |
| Schema.KeepNumericCounts | main.py:26-27 | every copy of a numeric row is kept and no copy of another row is; with the order lemma this fixes the result (the same filter serves wwe_wikis/titles.py:59) |
| Schema.ReignScenario | main.py:26-27 | reign numbers "1", "N/A", "2": the "N/A" row is dropped, the other two are kept in order |
| Numeric.ParseShowInt | main.py:27 | the decimal text of any integer converts back to that integer |
| Numeric.NonNumericText | main.py:27 | "N/A", "<1", an em dash and empty text are not numbers |
| Numeric.ParseInteger | main.py:51-54 | text converts to an integer if and only if it is an optional `+` or `-` followed by at least one ASCII digit; the value is the digits' decimal value, negated after `-`; empty text is no number |
| Numeric.SignedTextExamples | main.py:51-54 | "+5" is 5, "007" is 7, "-0" is 0 and "-12" is -12; a sign alone is no number |
| Schema.DropLabels | main.py:28 | a label survives the drop if and only if it was a column and is not one of the dropped labels; the rows are kept |
| Schema.DropLastTwoExact | main.py:28 | when the last two labels occur nowhere else, dropping them removes exactly the last two columns |
| Schema.DropLabelsKeepsColumn | main.py:28 | a label that is not dropped keeps the cells of its column |
| Champions.Prepare | main.py:25-28 | the error is a missing `no.` column, and only that; no more rows than the page table; the header is the flattened one minus the last two labels |
| Champions.PreparedNumbers | main.py:26-28 | after preparation every cell of the reign-number column is numeric |
| Dimensions.Distinct | main.py:30 | `unique`: no duplicates, the same values as the column, never longer |
| Dimensions.DistinctInFirstOccurrenceOrder | main.py:30 | the distinct values appear in the order of their first occurrence in the column |
| Dimensions.Dimension | main.py:30-37 | at most one entry per row of the column; the ids are 1, 2, 3, … in order; every name is a value of the column and no name occurs twice |
| Dimensions.DimensionShape | main.py:30-37 | a dimension lists the distinct values, at most one per row, with ids 1, 2, 3, … |
| Dimensions.IdMap | main.py:39-47 | the name-to-id lookup has a key for exactly the names of the dimension |
| Dimensions.BuildDimension | main.py:30-31 | the loops that collect the values and number them compute the dimension |
| Champions.DimensionSizes | main.py:30-37 | each of the three dimensions has at most as many entries as the fact table has rows |
| Dimensions.DimensionKeys | main.py:30-41 | the id lookup covers exactly the column's values; each id is in range and names its value |
| Dimensions.RewriteColumn | main.py:39-47 | the header and the row count are kept; in each row only the rewritten column's cell changes, to its key in the lookup, or to missing when the value has no key |
| Dimensions.RewriteKeys | main.py:39-41 | each rewritten cell is an integer key whose dimension entry holds the replaced value |
| Dimensions.RewriteInjective | main.py:39-41 | two rows get the same key if and only if they had the same value |
| Dimensions.RewriteFrame | main.py:39-41 | the key rewrite changes no other column |
| Dimensions.ForeignKeyRoundTrip | main.py:30-47 | mapping a column through its own dimension: keys in range, equal keys exactly for equal values, other columns untouched |
| Dimensions.RewriteRoundTrip | main.py:39-47 | for any dimension and lookup that key every value of the column, the rewrite gives in-range keys that name the replaced values, equal keys exactly for equal values, and no change elsewhere |
| Dimensions.RewriteKeyed | main.py:39-47 | the rewritten column is keyed by the dimension of the column it replaced |
| Dimensions.RewriteKeeps | main.py:39-47 | a rewrite of one column leaves any other label's column and the header as they were |
| Frames.Frame.MapColumn | main.py:39-47 | the in-place loop that maps one column leaves the frame equal to the functional rewrite |
| Champions.AddKeys | main.py:30-47 | building the dimensions and rewriting the keys fails exactly when `champion`, `event` or `location` is missing, with a missing-column error; otherwise the fact table keeps its header and row count |
| Champions.AddKeysKeyed | main.py:39-47 | after the three rewrites, each of champion, event and location is keyed by its own dimension |
| Champions.KeyedKeeps | main.py:39-47 | the three rewrites leave every other column unchanged |
| Champions.ForeignKeys | main.py:30-60 | in the final fact table, the champion, event and location cells are keys of their dimensions naming the row's original values |
| Champions.FactKeys | main.py:39-60 | the keys written by the rewrite step survive the conversion and rename step |
| Tables.SetColumnContents | main.py:49-59 | after assignment the column holds the given values and every other column is unchanged |
| Tables.SetColumnKeeps | main.py:49-59 | assigning one label leaves another label's column and position unchanged |
| Coercion.ToNumeric | main.py:51-54 | a converted cell is an integer or missing |
| Coercion.NumericRoundTrip | main.py:51-54 | an integer's text converts to that integer |
| Coercion.PlainNumericPlaceholders | main.py:51-54 | "<1", "N/A" and a missing cell convert to missing |
| Coercion.ToDate | main.py:55-57 | a converted date cell is missing or a real calendar day |
| Dates.ParseDate | main.py:55-57 | a parsed date is always a real calendar day |
| Dates.ParseDateText | main.py:55-57 | text written "Month D, YYYY" parses to that date if and only if it is a real calendar day |
| Dates.ParseFormatDate | main.py:55-57 | printing a real date in the pattern and parsing it back gives the date |
| Dates.MarchExample | main.py:55-57 | "March 5, 2001" is 5 March 2001 |
| Dates.FebruaryThirtiethExample | main.py:55-57 | "February 30, 2001" fits the pattern but is no date |
| Dates.NoDigitsNoDate | main.py:55-57 | text without a digit never parses to a date |
| Coercion.DateCells | main.py:55-57 | "March 5, 2001" becomes 5 March 2001 and "February 30, 2001" becomes missing |
| Dates.ParseDateLayout | main.py:55-57 | text parses to a date if and only if it is that real day written as a month name in any case, blanks, a one- or two-digit day, a comma, blanks and a four-digit year, with nothing around them; any other layout gives no date |
| Coercion.DateCellLayout | main.py:55-57 | a text cell becomes a date exactly when it writes that date in the `%B %d, %Y` layout; all other text becomes missing (the same conversion serves wwe_wikis/titles.py:66-68) |
| Champions.ConvertedRowCells | main.py:49-59 | in a converted row, each assigned cell is the conversion of the incoming cell, the title cell holds the title, all other cells are kept |
| Champions.AssignColumnsRowwise | main.py:49-59 | assigning the six columns one after another equals converting every row independently |
| Champions.ConvertedCells | main.py:49-59 | in row i, no./days/reign/days recog. are the numeric conversions and date is the date conversion of the same row's cells |
| Champions.ConvertedKeeps | main.py:49-59 | a label the assignment does not write keeps its column and its position |
| Champions.Finalise | main.py:49-60 | the error is exactly a missing assigned column; the row count is kept |
| Champions.FinaliseKeeps | main.py:49-60 | a column not assigned and not renamed survives the conversion step unchanged |
| Champions.NumberColumnConverted | main.py:51-60 | a reign-number column of numeric cells becomes an integer column named `no` |
| Champions.ReignNumbersAreIntegers | main.py:26-60 | every fact row has an integer reign number, in the column labelled `no` |
| Champions.TitleStamped | main.py:58 | every fact row carries "WWE Championship" in its `title` column |
| Champions.ConvertedTitle | main.py:58-60 | after conversion and renaming, the first `title` column holds the title in every row |
| Champions.TitleColumn | main.py:58 | the title column is found where the conversion wrote it, or appended as the last column |
| Tables.RenameHeaders | main.py:60 | renamed labels are the map's targets; all other labels are unchanged |
| Tables.RenameUndone | main.py:60 | the inverse map undoes the rename on headers that hold none of its targets |
| Tables.RenameIdempotent | main.py:60 | renaming twice with a map whose targets are not keys is renaming once |
| Tables.RenameKeepsIndexOf | main.py:60 | a label the rename neither maps nor produces keeps its position |
| Tables.RenameMovesIndexOf | main.py:60 | a renamed label's new name sits where the old one was |
| Tables.RenamedLabelsGone | main.py:60 | after the rename no header is a key of the map |
| Champions.FinaliseRenames | main.py:60 | `no.` and `days recog.` are gone after the conversion step |
| Champions.RenamedLabels | main.py:60 | the final fact table has no `no.` and no `days recog.` label |
| Champions.Championship | main.py:25-60 | on success the fact table is well formed and has no more rows than the chosen table; every failure is a missing column |
| Champions.ChampionshipPage | main.py:21-60 | a page with at most two tables fails with the missing index 2, and only such a page; on success the fact table is well formed and no longer than the table at index 2 |
| Champions.LoadChampionship | main.py:20-60 | the program's steps compute the pipeline function: header replaced in place, dimensions built by loops, keys mapped in place |
| Titles.SourceLabelsDistinct | wwe_wikis/titles.py:12-39 | fourteen sources, each stamping a different title name |
| Titles.TableIndex | wwe_wikis/titles.py:45-50 | the chosen index is 1, 2 or 3; it is index 3 exactly for the third page and index 1 exactly for the fourteenth |
| Titles.TableChoice | wwe_wikis/titles.py:45-50 | index 3 for the third page, index 1 for the fourteenth, index 2 for every other page |
| Titles.OnlyChosenTable | wwe_wikis/titles.py:45-50 | pages that agree on the chosen table give the same result, whatever their other tables |
| Titles.Selected | wwe_wikis/titles.py:45-62 | a page with too few tables fails with that table's index, and only then |
| Titles.Normalise | wwe_wikis/titles.py:53-56 | for every page but the twelfth the table is the flattened one; the row count is kept |
| Titles.FixupShape | wwe_wikis/titles.py:55-56 | on the twelfth page `days recog.` follows `days`, is missing in every row, and removing it gives back the flattened table |
| Schema.AddColumnAfter | wwe_wikis/titles.py:56 | a missing anchor and an existing label are the two errors, and the only ones |
| Schema.AddColumnAfterShape | wwe_wikis/titles.py:56 | the new column sits right after the anchor, is missing everywhere, and removing it undoes the insert |
| Tables.InsertColumnShape | wwe_wikis/titles.py:56 | an inserted column: the new label at its position, the fill in every row, other columns shifted unchanged |
| Tables.RemoveInsertedColumn | wwe_wikis/titles.py:56 | removing an inserted column gives back the table |
| Frames.Frame.Insert | wwe_wikis/titles.py:56 | the in-place insert refuses an existing label and leaves the frame unchanged; otherwise it equals the functional insert |
| Titles.Select | wwe_wikis/titles.py:58-62 | selection fails exactly when `no.` or `notes` is missing; never more rows or columns |
| Titles.SelectNotReapplicable | wwe_wikis/titles.py:58-62 | selection cannot be applied to its own output, because `no.` has been renamed away |
| Titles.SelectNoNumericRows | wwe_wikis/titles.py:58-62 | when no reign number is numeric, selection succeeds with no rows instead of failing |
| Schema.TruncateAt | wwe_wikis/titles.py:60 | the columns up to and including the first `notes`, or an error when there is none |
| Schema.TruncateIdempotent | wwe_wikis/titles.py:60 | cutting at `notes` twice is cutting once |
| Titles.SelectColumns | wwe_wikis/titles.py:60-61 | the selected header is the renamed prefix that ends at the first `notes` |
| Titles.SelectRenames | wwe_wikis/titles.py:61 | `no.` and `days recog.` are gone after selection |
| Titles.SelectReignText | wwe_wikis/titles.py:59-61 | when `no.` precedes `notes`, the kept rows are exactly the numeric ones and their numbers stay as text under `title_reign` |
| Titles.ConvertedRowCells | wwe_wikis/titles.py:64-74 | in a converted row reign, date, days and days_recognized are converted, title holds the name, all other cells are kept |
| Titles.AssignColumnsRowwise | wwe_wikis/titles.py:64-74 | assigning the five columns one after another equals converting every row independently |
| Titles.Assign | wwe_wikis/titles.py:64-74 | the error is exactly a missing reign, date, days or days_recognized column; the row count is kept |
| Titles.ConvertedCells | wwe_wikis/titles.py:64-74 | in row i each converted cell is the conversion of the same row's cell, and the title cell holds the name |
| Titles.ConvertKeepsReignNumber | wwe_wikis/titles.py:64-74 | the conversion leaves the `title_reign` column untouched |
| Titles.ConvertKeepsHeaders | wwe_wikis/titles.py:64-74 | conversion keeps every label in place and appends at most `title` |
| Titles.ConvertAddsOnlyTitle | wwe_wikis/titles.py:64-74 | conversion introduces no label other than `title` |
| Numeric.ReplaceSentinel | wwe_wikis/titles.py:69 | the replacement never makes text longer; non-empty text stays non-empty, and its first character is kept or becomes `0` |
| Coercion.ToDays | wwe_wikis/titles.py:69-72 | a day count is an integer or missing |
| Numeric.SentinelRemoved | wwe_wikis/titles.py:69 | after the replacement no "<1" is left |
| Numeric.NoSentinelUnchanged | wwe_wikis/titles.py:69 | text without "<1" is left unchanged by the replacement |
| Numeric.SentinelReplacedAt | wwe_wikis/titles.py:69 | the first `<1` becomes `0`, the text before it is kept and the replacement continues after it; with `NoSentinelUnchanged` this determines the result on every text |
| Numeric.SentinelExamples | wwe_wikis/titles.py:69 | "<12" becomes "02", which reads as 2, and "a<1<1" becomes "a00" |
| Numeric.SentinelReadsAsZero | wwe_wikis/titles.py:69 | "<1" becomes "0", which reads as zero |
| Coercion.SentinelDays | wwe_wikis/titles.py:69 | the cell "<1" is a day count of 0 |
| Coercion.SentinelPrefixDays | wwe_wikis/titles.py:69-72 | the days cell "<12" is read as 2 days |
| Coercion.DaysWithoutSentinel | wwe_wikis/titles.py:69-72 | without the sentinel a day count is the plain numeric conversion |
| Titles.ProcessSource | wwe_wikis/titles.py:41-74 | a page with too few tables fails with that index, and only then; no more rows than the chosen table |
| Titles.ProcessedCells | wwe_wikis/titles.py:64-72 | each output row holds, under the same labels, the converted reign, date and both day counts of the same selected row |
| Titles.LessThanOneDay | wwe_wikis/titles.py:69 | a days cell "<1" comes out as 0 |
| Titles.TitleColumn | wwe_wikis/titles.py:73 | the title column is found where the conversion wrote it and holds the name in every row |
| Titles.TitleStamped | wwe_wikis/titles.py:73 | every output row of source i carries that source's title name |
| Titles.ReignNumberKeptAsText | wwe_wikis/titles.py:59-74 | when `no.` precedes `notes`, `title_reign` holds each kept row's numeric text, unconverted, with as many rows as pass the filter |
| Titles.ColumnsUpToNotes | wwe_wikis/titles.py:60-74 | the output header is the renamed header up to `notes`, plus at most `title` |
| Titles.SelectConvertColumns | wwe_wikis/titles.py:60-74 | the same at the selection and conversion stage |
| Titles.LabelsRenamed | wwe_wikis/titles.py:61-74 | the output has no `no.` and no `days recog.` label |
| Titles.LoadSource | wwe_wikis/titles.py:43-74 | the program's steps for one page compute the pipeline function: the header is replaced in place, and on the twelfth page the column is inserted in place |
| Titles.AppendProcessed | wwe_wikis/titles.py:41-79 | appending the next processed table keeps the appended tables equal to the processed sources, in order |
| Titles.LoadTitles | wwe_wikis/titles.py:41-79 | the appended tables are the first sources processed, in order; a failure is the next source's error; with no failure all fourteen are appended |

## Left out

- Fetching the pages, HTML parsing, logging, the DuckDB writes and the
  primary keys are I/O. The pipelines start from the tables found on a page
  and end with the tables that would be written. The clock in `main.py`'s
  entry point is left out.
- Type inference when HTML tables are read is not modelled. Page cells are
  text or missing, and the `.str` accessor is assumed to apply to the day
  columns. Integer columns that the reader would produce, and the error
  `.str` raises on them, are not modelled.
- Coercion.ToNumeric: reads an optional sign and ASCII digits only.
  Decimal, exponent and whitespace-padded text, and "inf" and "infinity",
  are not modelled; they read as missing here, where the library gives a
  number (so the numeric-row filter would keep such a row).
- Coercion.ToDate: follows the `%B %d, %Y` pattern with ASCII case
  folding and calendar validity for years 1 to 9999. The day and year
  fields accept ASCII digits only; Python's `\d` in those fields also
  accepts other Unicode decimal digits, which the model does not. The special strings
  "now" and "today" are left out, and so are the nanosecond timestamp
  range and the difference between a timestamp and `.dt.date` (both are a
  calendar day here).
- Coercion.ToNumeric: every converted number is an unbounded integer.
  The library returns float64 for a column that holds a missing value,
  and integer text beyond the int64 range changes the column's type or,
  past 2^53, loses precision. Neither is modelled.
- Text.Lower: lower-cases ASCII letters only. Full Unicode case mapping is
  not modelled.
- Raw tables always have a two-level header (a group label over a field
  label), as the pages' history tables do. On a one-level header the
  program's `droplevel(0)` raises, and on a header of three or more levels
  `.str.lower()` fails; neither failure is modelled.
- Duplicate column labels: every lookup uses the first column with the
  label. The library's behaviour on duplicated labels (frames returned
  instead of columns, slice errors) is not modelled.
- Titles.LoadTitles: the tables appended before a failure stay appended,
  as in the program. Database-side failures during an insert are not
  modelled.
- Titles.Select: selection is not idempotent. Applied to its own output
  it fails, because `no.` has been renamed to `title_reign`. Only the
  truncation and the renaming are idempotent on their own
  (`Schema.TruncateIdempotent`, `Tables.RenameIdempotent`).
- Schema.TruncateAt: a header without `notes` is always an error
  (`MissingColumn("notes")`), and `Titles.Select` reports it. The
  library's label slice fails in the same way only when the header is not
  sorted. On a sorted header it cuts at the position where `notes` would
  sort. On an ascending header `reign`, which sorts after `notes`, is cut,
  and the program fails at the assignment because `reign` is missing. On
  a descending header `date`, `days` and `days recog.` are cut, and it
  fails at `date`. Either way the source fails, and the tables appended
  before it stay appended. Only the error value and the stage where the
  failure occurs differ.
- Titles.Select: a filter that keeps no row raises nothing. The source
  then goes on with an empty table (`Titles.SelectNoNumericRows`).
- `wwe_wikis/events.py` is not part of this model.
