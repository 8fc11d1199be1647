# Account summary for Google Sheets: a Dafny model

The program reads an accounts CSV into a data frame. It writes the frame to a
Google Sheets tab and also writes a summary report to a second tab. This
project models three parts of it:

- `df_to_values`: the frame becomes a grid of strings. The header row comes
  first, then one row per record, and missing cells become `""`.
- `compute_summary_table`: the two-column report. It opens with a Metric/Value
  block holding the balance total to two decimals. Three sections follow, each
  a blank row, a header row and its entries:
  - the count per payment status, by non-increasing count;
  - the count per account type, in the same order;
  - the average balance per account type, by ascending type, to two decimals
    (a negative mean that rounds to zero is written `-0.00`, as `.2f` does).
  The balance column is coerced to numbers first: a cell that is missing or is
  not a number counts as 0, and a missing column gives zeros throughout.
- `ensure_sheet_exists`: the spreadsheet gets a tab with a given title, made
  with one `addSheet` batch update, only when no tab already has that title.

Modules:

- `Wrappers` holds `Option`.
- `Numbers` parses decimals, rounds half to even and formats amounts with two
  decimals.
- `Frame` models the table, its column lookup and `df_to_values`.
- `Grouping` models value counts, sorted group keys and group means.
- `Summary` models the report: `SummaryTable` as a function, and
  `ComputeSummaryTable` as the method that builds it by appending rows.
- `SheetsClient` models the spreadsheet as a class whose tab list and
  batch-update log change.
- `Scenarios` works two concrete tables through the model.

A data-frame cell is `Option<string>`, where `None` is NaN or missing. Balances
are exact rationals (`real`).

## Model

| member | source | states |
|---|---|---|
| Frame.ColumnIndex | src/data_processing.py:18 | `None` exactly when the column name is absent; otherwise the first position that holds the name |
| Frame.Column | src/data_processing.py:19 | a column is absent exactly when its name is not a header; otherwise it has one cell per row, taken from that header's position |
| Frame.RenderRow | src/data_processing.py:11 | `fillna('').astype(str)` of one record: as many cells as the record, a missing cell becomes `""` and every other cell keeps its text |
| Frame.ToValues | src/data_processing.py:10-11 | the grid has one row more than the frame, and its first row is the column list in order |
| Frame.ToValuesRectangular | src/data_processing.py:10-11 | every grid row, header included, is as wide as the column list |
| Frame.ToValuesCells | src/data_processing.py:11 | a missing cell becomes `""` and every other cell keeps its text, at the same row (shifted by the header) and column |
| Frame.FromValuesRoundTrip | src/data_processing.py:10-11 | reading any non-empty grid back as a frame and converting it again gives the same grid |
| Frame.ToValuesRoundTrip | src/data_processing.py:10-11 | converting a frame and reading it back gives the frame with its missing cells replaced by `""`, so only NaN is lost |
| Frame.ToValuesSameIff | src/data_processing.py:10-11 | two frames give the same grid if and only if they agree once missing cells are `""` |
| Numbers.NatToString | src/data_processing.py:35 | `str(v)` of a count is a non-empty digit string with no leading zero |
| Numbers.NatToStringRoundTrip | src/data_processing.py:35 | the digits of `str(n)` read back as `n` |
| Numbers.NatToStringInjective | src/data_processing.py:35 | different counts render differently |
| Numbers.LeadingDigits | src/data_processing.py:19 | the length of the digit run that starts a string: what follows it is not a digit, and an all-digit string is one run |
| Numbers.ParseUnsigned | src/data_processing.py:19 | unsigned decimal text gives a non-negative number, never from empty text; a plain digit string gives its integer value (which text it accepts: `ParseUnsignedAccepts`) |
| Numbers.ParseDecimal | src/data_processing.py:19 | coercion of one cell's text: never a number from empty text, negative only after a leading `-`, and a plain digit string gives its integer value (which text it accepts: `ParseDecimalAccepts`) |
| Numbers.ParseUnsignedAccepts | src/data_processing.py:19 | unsigned text gives a number if and only if it is a non-empty digit string, or digits, one point and digits with at least one digit in all (`12`, `12.`, `.5`, `12.50`); all other text gives none |
| Numbers.ParseDecimalAccepts | src/data_processing.py:19 | a cell's text coerces to a number if and only if it is such unsigned text, optionally after one `-` or `+`; anything else (`abc`, `.`, `-`) is not a number and becomes 0 |
| Numbers.ParseNatToString | src/data_processing.py:19 | a rendered count coerces back to the same number |
| Numbers.ParseUnsignedPoint | src/data_processing.py:19 | `digits.digits` with at least one digit in all (`12.5`, `12.`, `.5`) coerces to the whole part plus the fraction |
| Numbers.ParseDecimalUnsigned | src/data_processing.py:19 | text that starts with a digit is read without a sign |
| Numbers.ParseDecimalNegative | src/data_processing.py:19 | a leading `-` negates the number that follows |
| Numbers.ParseDecimalPlus | src/data_processing.py:19 | a leading `+` leaves the number that follows unchanged |
| Numbers.ParseSignedHundredths | src/data_processing.py:19-30 | a signed two-decimal rendering reads back as its signed value in hundredths |
| Numbers.RoundHalfEven | src/data_processing.py:26 | the integer nearest the value, and the even one at an exact tie |
| Numbers.Cents | src/data_processing.py:30 | the amount in hundredths, rounded half to even, with the sign of the amount |
| Numbers.CentsClose | src/data_processing.py:30 | the rounded amount is within 0.005 of the exact one |
| Numbers.FormatAmount | src/data_processing.py:30 | `.2f` output always ends with a point followed by two decimal digits |
| Numbers.FormatAmountSign | src/data_processing.py:30 | `.2f` output starts with `-` exactly when the amount is negative, even when it rounds to zero |
| Numbers.ParseHundredths | src/data_processing.py:30 | an unsigned rendering reads back as hundredths |
| Numbers.FormatAmountRoundTrip | src/data_processing.py:30 | coercing the `.2f` text of any amount gives exactly that amount rounded to cents |
| Grouping.Occurrences | src/data_processing.py:24 | the number of cells holding the value is its multiplicity in the column, so at most one per cell |
| Grouping.OccurrencesPositive | src/data_processing.py:24 | a value occurs in a column if and only if it is one of the non-missing cells |
| Grouping.FirstSeen | src/data_processing.py:24 | the distinct non-missing values, each once, and no others |
| Grouping.FirstSeenLength | src/data_processing.py:24 | there are as many distinct values as elements in the value set |
| Grouping.InsertByCount | src/data_processing.py:24 | inserting a tally keeps every tally and adds exactly this one |
| Grouping.InsertByCountSorted | src/data_processing.py:24 | inserting into a list sorted by non-increasing count keeps it sorted |
| Grouping.SortByCount | src/data_processing.py:24 | the sorted list is a permutation of the tallies, ordered by non-increasing count |
| Grouping.ValueCounts | src/data_processing.py:24 | `value_counts()`: its values are a permutation of the distinct non-missing values, by non-increasing count |
| Grouping.ValueCountsSpec | src/data_processing.py:24-25 | `value_counts`: each distinct non-missing value appears once with its exact, positive occurrence count; no other value appears; counts are non-increasing |
| Grouping.Below | src/data_processing.py:26 | Python's `<` on the `str` keys `groupby` sorts by: no key sorts before itself |
| Grouping.BelowIsLexLess | src/data_processing.py:26 | the recursive comparison is exactly the lexicographic order: after a common prefix, the first string ends first or has the smaller character |
| Grouping.BelowTransitive | src/data_processing.py:26 | the key order is transitive |
| Grouping.BelowTotal | src/data_processing.py:26 | any two different keys are ordered one way or the other |
| Grouping.InsertKey | src/data_processing.py:26 | inserting a key keeps all keys and adds exactly it |
| Grouping.InsertKeyAscending | src/data_processing.py:26 | inserting a new key into ascending keys keeps them ascending |
| Grouping.SortKeys | src/data_processing.py:26 | sorting the group keys is a permutation |
| Grouping.SortKeysAscending | src/data_processing.py:26 | distinct keys come out strictly ascending |
| Grouping.SortedKeysOccur | src/data_processing.py:26 | every sorted group key occurs in the key column, so no group is empty |
| Grouping.Mean | src/data_processing.py:26 | `.mean()` of a non-empty group: the mean times the group size gives back the group's total |
| Grouping.GroupSum | src/data_processing.py:26 | a key that occurs in no row has a group sum of 0 |
| Grouping.GroupSumOfZeros | src/data_processing.py:21-26 | with all amounts 0 (no balance column) every group sums to 0 |
| Grouping.GroupMeans | src/data_processing.py:26 | one group per distinct key in sorted order, each non-empty, with mean = the sum of its balances / its row count |
| Grouping.GroupMeansSpec | src/data_processing.py:26 | group keys are strictly ascending, are exactly the non-missing keys, and there is one per distinct key |
| Grouping.SumOfGroupsLastRow | src/data_processing.py:26 | a row's amount is counted in exactly one group of distinct keys: the one of its key, when that key is among them |
| Grouping.GroupsPartitionRows | src/data_processing.py:26 | for distinct keys covering every present key, the group sums add up to the amounts of all rows that have a key |
| Grouping.GroupSumsCoverPresentRows | src/data_processing.py:26 | the groups `groupby` reports partition the rows with a key: their sums add up to those rows' total amount |
| Summary.Coerce | src/data_processing.py:19 | present text that parses coerces to the parsed number; a cell coerces to a non-zero number only when it is present text that parses as that number, so everything else becomes 0 |
| Summary.Coerced | src/data_processing.py:19 | one number per balance cell, each the coercion of its own cell |
| Summary.Balances | src/data_processing.py:18-21 | one number per row: all 0 without a balance column, otherwise the coerced balance column |
| Summary.Sum | src/data_processing.py:23 | `.sum()` of an amount column; a column of non-negative amounts has a non-negative sum |
| Summary.Total | src/data_processing.py:23 | the total is 0 when the table has no balance column |
| Summary.SumAppend | src/data_processing.py:23 | the sum over two parts is the sum of the sums |
| Summary.SumCoercedIsSumOfNumbers | src/data_processing.py:19-23 | missing or non-numeric cells add nothing to the total |
| Summary.SumOfZeros | src/data_processing.py:21-23 | a column of zeros sums to 0 |
| Summary.TotalIsSumOfNumericBalances | src/data_processing.py:18-23 | the total is 0 without a balance column; otherwise it is the sum of the cells that parse as numbers |
| Summary.SumNumbersInCell | src/data_processing.py:19 | the numbers of one cell add up to its coerced value |
| Summary.GroupSumOfCoerced | src/data_processing.py:19-26 | a group's sum of coerced balances is the sum of the numbers among its rows' balance cells |
| Summary.GroupBalanceSum | src/data_processing.py:18-26 | an account type's group sum is 0 without a balance column; otherwise it is the sum of the numeric balances of that type's rows |
| Summary.CountsOf | src/data_processing.py:24-25 | a count section is empty when its column is absent, and its counts never increase |
| Summary.AveragesByType | src/data_processing.py:26 | the averages are empty without `account_type`, and their keys are strictly ascending |
| Summary.CountRow | src/data_processing.py:35 | a count row is `[value, digits]` with a non-empty digit string |
| Summary.CountRowReadsBack | src/data_processing.py:35 | the count cell reads back as the count |
| Summary.Round2 | src/data_processing.py:26 | `.round(2)` gives a whole number of hundredths, namely the mean's hundredths rounded half to even, so it moves the mean by at most 0.005 and rounding it again changes nothing |
| Summary.AverageRow | src/data_processing.py:45 | an average row is `[type, text]` with text of at least four characters (`d.dd`) |
| Summary.AverageRowReadsBack | src/data_processing.py:26-45 | the average cell reads back as the mean after `.round(2)`, and starts with `-` exactly when the mean is negative |
| Summary.FormatRoundedMean | src/data_processing.py:26-45 | formatting the rounded mean gives the text of the mean itself, except a negative mean that rounds to zero, which is written `-0.00` |
| Summary.CountRows | src/data_processing.py:34-35 | one `[value, str(count)]` row per tally, in order |
| Summary.AverageRows | src/data_processing.py:44-45 | one `[type, f"{mean:.2f}"]` row per group, in order |
| Summary.MetricBlock | src/data_processing.py:29-30 | the Metric/Value block is two rows of two cells, neither of them the blank separator |
| Summary.Section | src/data_processing.py:32-45 | a section is its entries plus two rows, the separator and the header (their places: `SectionRow`) |
| Summary.Layout | src/data_processing.py:28-45 | the report has 8 fixed rows plus its entry rows |
| Summary.Report | src/data_processing.py:28-45 | one row per tally and average, plus 8 fixed rows |
| Summary.SummaryTable | src/data_processing.py:14-47 | at least the 8 fixed rows, starting with Metric/Value |
| Summary.AppendCountRows | src/data_processing.py:34-35 | the loop leaves the table followed by the count rows |
| Summary.AppendAverageRows | src/data_processing.py:44-45 | the loop leaves the table followed by the average rows |
| Summary.LayoutAsAppends | src/data_processing.py:28-45 | the report's blocks are exactly the rows the source appends, one `append` or loop after another |
| Summary.ComputeSummaryTable | src/data_processing.py:14-47 | the table the appends build is exactly the report of the frame |
| Summary.SectionRow | src/data_processing.py:32-35 | a section's row 0 is the blank separator, row 1 is its header, and the rest are its entries in order |
| Summary.LayoutRowAt | src/data_processing.py:28-45 | which block each row index of the report falls in |
| Summary.LayoutFixedRows | src/data_processing.py:29-43 | with p payment-status rows and a account-type rows, the header, total, separator and section-header rows sit at 0, 1, 2, 3, 4+p, 5+p, 6+p+a and 7+p+a |
| Summary.LayoutEntries | src/data_processing.py:32-45 | payment-status row k is at 4+k, account-type row k at 6+p+k, average row k at 8+p+a+k |
| Summary.LayoutRowShape | src/data_processing.py:28-45 | any single report row has two cells, and it is blank exactly at the three separator positions |
| Summary.LayoutSeparators | src/data_processing.py:32-42 | a row is `['', '']` if and only if it is one of the three separators |
| Summary.RenderedEntryRows | src/data_processing.py:35-45 | every count and average row has two cells and a non-empty second cell, so none is blank even when its key is `""` |
| Summary.ReportFixedRows | src/data_processing.py:29-43 | the report's fixed rows, at the positions the section sizes give, with the total written by `.2f` |
| Summary.ReportEntries | src/data_processing.py:32-45 | between the fixed rows, the rendered tallies and averages, each section in its order |
| Summary.ReportSeparators | src/data_processing.py:32-42 | a row is `['', '']` if and only if it is one of the three separators, even when a key is `""` or a section is empty |
| Summary.ReportRowsArePairs | src/data_processing.py:28-45 | every report row has exactly two cells |
| Summary.CountSection | src/data_processing.py:24-25 | the counts are empty without the column; otherwise they hold each distinct non-missing value once with its occurrence count, by non-increasing count |
| Summary.AverageSection | src/data_processing.py:26 | the averages are empty without `account_type`; otherwise there is one per distinct type, ascending, each the mean of that type's coerced balances |
| Summary.SectionSizes | src/data_processing.py:24-26 | each section has one entry per distinct value of its column |
| Summary.SummaryLength | src/data_processing.py:28-47 | the report has 8 + (payment statuses) + 2 × (account types) rows |
| Summary.SummaryRowsArePairs | src/data_processing.py:28-47 | every row of the report has exactly two cells |
| Summary.SummaryFixedRows | src/data_processing.py:29-43 | the report's fixed rows, at the positions the numbers of distinct statuses and types give, with the total written by `.2f` |
| Summary.SummarySeparators | src/data_processing.py:32-42 | the report's blank rows are exactly the three separators |
| SheetsClient.TitleOf | src/sheets_client.py:16 | a tab has a title exactly when its properties are present and hold one |
| SheetsClient.Titles | src/sheets_client.py:16 | one title entry per tab; a tab without properties has none |
| SheetsClient.HasTitle | src/sheets_client.py:17 | a title is present if and only if some tab's title is it |
| SheetsClient.NewTab | src/sheets_client.py:19 | the tab an `addSheet` request creates carries the requested title |
| SheetsClient.ApplyBatch | src/sheets_client.py:19-21 | the old tabs stay first and in order, followed by one new tab per `addSheet`, titled as requested |
| SheetsClient.EnsureRequests | src/sheets_client.py:17-21 | at most one batch, and every batch is the single `addSheet` for the title |
| SheetsClient.AfterEnsure | src/sheets_client.py:13-21 | the old tabs stay first and in order, and at most one tab is added |
| SheetsClient.Spreadsheet.TitleList | src/sheets_client.py:14-16 | one title per tab, and a title occurs in the list exactly when the spreadsheet has it |
| SheetsClient.Spreadsheet.BatchUpdate | src/sheets_client.py:21 | the batch is logged, and each `addSheet` appends a tab |
| SheetsClient.Spreadsheet.EnsureSheetExists | src/sheets_client.py:13-21 | sends the batches `EnsureRequests` names and leaves the tabs `AfterEnsure` names |
| SheetsClient.HasTitleIff | src/sheets_client.py:16-17 | a title is present if and only if some tab has properties that hold that title |
| SheetsClient.HasTitleAppend | src/sheets_client.py:16-17 | appending a tab adds its title, if it has one, to the titles present |
| SheetsClient.UntitledNeverMatches | src/sheets_client.py:16 | a tab with no properties or no title matches no title |
| SheetsClient.EnsureCreatesOnlyWhenAbsent | src/sheets_client.py:17-21 | no request when the title is present; otherwise exactly one batch with one `addSheet` for it |
| SheetsClient.AfterEnsureSpec | src/sheets_client.py:13-21 | afterwards the title is present; the present titles are the old ones plus it; the old tabs stay first and in order; at most one tab is added |
| SheetsClient.EnsureIdempotent | src/sheets_client.py:13-21 | a second call requests nothing and changes nothing |
| SheetsClient.TwoCallsAtMostOneCreate | src/sheets_client.py:13-21 | two calls in a row send at most one create |
| Scenarios.ParseExamples | src/data_processing.py:19 | "100", "-50.5" and "0" parse; "x" does not |
| Scenarios.ParseEdgeExamples | src/data_processing.py:19 | ".5" is 0.5 and "+5" is 5; "abc", "." and "-" are not numbers |
| Scenarios.TotalExample | src/data_processing.py:18-30 | balances 100, -50.5, "x" and 0 give a total of 49.5, shown as "49.50" |
| Scenarios.GroupingExample | src/data_processing.py:26-45 | types A (10, 30) and B (5) give averages A 20.00 and B 5.00, in that order |
| Scenarios.ExampleNegativeZeroMean | src/data_processing.py:26-45 | a mean of -0.001 is written `-0.00` |

## Left out

- `read_csv_to_df` (CSV parsing, `skipinitialspace`, stripping header names): file input. The model starts from a frame of text cells.
- pandas dtype inference: `read_csv` loads a column of whole numbers as integers, which `astype(str)` renders as e.g. `100`; a column with decimals or blanks loads as floats, rendered e.g. `100.0`. The model treats every cell as text and renders it unchanged.
- Numbers.ParseDecimal: accepts only plain decimal notation (an optional sign, digits, an optional point and digits). `to_numeric` also accepts exponents, `inf` and surrounding whitespace; here those count as 0.
- Numbers.RoundHalfEven: rounds the exact rational value. Python rounds the binary float nearest to it, so a value such as 2.675 can round differently. Floating point is not modelled.
- Summary.Total: sums exactly; float accumulation error is not modelled.
- Summary.Round2: an exact value cannot hold the float `-0.0` that `.round(2)` gives for a small negative mean, so the average rows format the mean itself, which yields the same text (see Summary.FormatRoundedMean).
- Grouping.ValueCountsSpec: ties between equal counts come out in first-seen order in the model. Only non-increasing order is claimed, because pandas does not fix the order of ties.
- Frame.Column: a duplicated column name uses its first occurrence. pandas would return a frame instead.
- NaN keys: missing payment statuses and account types are dropped from counts and groups, as pandas does by default. Other forms of missing value besides NaN are not distinguished.
- `df.copy()`: values in the model are immutable, so the caller's frame is never changed.
- `build_service`, `append_values`, `update_values`, `clear_range`, `get_sheet_values`, `batch_update` and `format_summary_sheet` in `src/sheets_client.py` are thin wrappers around network calls and are not modelled.
- The remote spreadsheet is modelled by its tab list and the log of batch updates it receives. Credentials, network failures, concurrent editors and the server's own checks (such as a duplicate title sent by another client) are not modelled.
- `gsheets_upload.py` (the top-level upload script), `config.py` (top-level environment settings) and `src/server.py` (a watchdog file watcher that re-uploads the CSV when it changes, with a sleep loop stopped by Ctrl+C) are not part of this model.
