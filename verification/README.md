# Sales dashboard: filter and aggregate, in Dafny

This project models the logic of a small retail sales dashboard (`main.py`).
The dashboard loads a table of supermarket transactions once. It adds an
`hour` column derived from each transaction's time of day. The distinct
cities, customer types and genders become the choices of three multi-select
filters. On every filter change, `on_filter` checks that no selection is
empty. If one is, it raises a notification and keeps the previous results.
Otherwise it calls `filter`, which returns three things:

- the rows whose City, Customer_type and Gender are each selected;
- the sum of Total per Product line, sorted ascending by that sum;
- the sum of Total per hour, in ascending hour order.

The summary cards render numbers with `to_text` (comma thousands
separators) and show the rounded average rating as a row of star glyphs.

The model is functional. Rows are immutable datatypes. The dataframe
operations (`isin`, boolean-mask selection, `groupby().sum()`,
`sort_values`, `unique()`) are explicit functions on sequences. Money and
ratings are exact `real`s.

Modules:

- `Wrappers`: `Option`.
- `Collections`: `Distinct`, `Unique` and its first-appearance order.
- `Text`: decimal digits, `Split`/`Join`, character deletion.
- `TimeOfDay`: the `%H:%M:%S` hour parser and the conversion of a time cell to an hour, a missing value or an error.
- `Formatting`: `to_text` and the star string.
- `Transactions`: rows, the hour column and the filter domains.
- `Grouping`: group-by-sum and sorting.
- `Dashboard`: `filter`, `on_filter` and the start-up state.

## Model

| member | source | states |
|---|---|---|
| Collections.Unique | main.py:19-21 | each column value appears in the domain exactly once, and the domain holds nothing else |
| Collections.UniqueFirstAppearance | main.py:19-21 | the domain lists values in order of first appearance: each listed value occurs in the column before every occurrence of any value listed after it |
| Transactions.DomainIsColumnValues | main.py:18-21 | the domains of City, Customer_type and Gender hold every value the column takes, each once, and nothing else |
| Transactions.Domain | main.py:19-21 | a filter domain has no repeated value, holds the value of every row, and every value it lists is some row's value |
| Transactions.AddHourColumn | main.py:14-15 | the load succeeds exactly when no time cell is an error; each row then keeps its fields and gets a missing hour exactly when its time is empty or a "not a time" string, and otherwise the parsed hour, in 0..23 |
| TimeOfDay.ConvertTime | main.py:15 | an empty or "not a time" string becomes a missing value; any other string becomes its hour, in 0..23, when it parses and an error otherwise |
| TimeOfDay.NotATimeDoesNotParse | main.py:15 | none of the strings read as a missing value parses as a time |
| TimeOfDay.ParseField | main.py:15 | a parsed field is the number its digits write and is at most the field's maximum |
| TimeOfDay.HourFieldIsPattern | main.py:15 | an hour field is accepted exactly when it matches the `%H` pattern: `2` then `0`-`3`, or `0`/`1` then a digit, or a single digit |
| TimeOfDay.MinuteFieldIsPattern | main.py:15 | a minute field is accepted exactly when it matches the `%M` pattern: `0`-`5` then a digit, or a single digit |
| TimeOfDay.ParseHour | main.py:15 | a parsed hour always lies in 0..23 |
| TimeOfDay.HourOfWellFormedTime | main.py:15 | for a well-formed `HH:MM:SS` string the hour is the number written as `HH`, and it is at most 23 |
| TimeOfDay.HourOfFormatTime | main.py:15 | writing a time as `HH:MM:SS` and parsing it gives back its hour |
| TimeOfDay.HourAboveRangeRejected | main.py:15 | an hour field above 23 makes the conversion fail |
| Text.Decimal | main.py:71 | the decimal digits of a number are non-empty, all digits, and have no leading zero |
| Text.ValueOfDecimal | main.py:71 | reading the decimal digits of `n` back gives `n` |
| Text.DecimalOfValue | main.py:71 | every digit string without a leading zero is the decimal form of its value |
| Formatting.Chunks | main.py:71 | the digits split into thousands groups: the first has 1-3 digits, the rest exactly 3, and together they are the digits |
| Formatting.ToText | main.py:70-71 | deleting the commas from `to_text(n)` leaves the minus sign for a negative `n` and then the decimal digits of its magnitude |
| Formatting.ToTextDigits | main.py:70-71 | deleting the commas from `to_text(n)` gives the sign and then the decimal digits of the magnitude, which read back as the magnitude |
| Formatting.ToTextGroups | main.py:70-71 | after the sign, `to_text(n)` splits at its commas into a first group of 1-3 digits and later groups of exactly 3 digits, which together are the digits of the magnitude |
| Formatting.Stars | main.py:91 | the star string for `n` has length `n` (empty for `n <= 0`) and every character is the star glyph |
| Grouping.Accumulate | main.py:55-56 | adding a row's Total to a table adds it to exactly that key's total and adds the key if it was missing |
| Grouping.GroupSum | main.py:52-65 | a grouped table has one entry per key the rows take, keys are distinct, and each key's total is the sum of Total over the rows with that key |
| Grouping.GroupSumConserves | main.py:53-56 | the grouped totals add up to the sum of Total over the rows |
| Grouping.GroupSumEntries | main.py:53-56 | every grouped entry holds the sum of Total over exactly the rows with its key |
| Grouping.SortBy | main.py:57 | the sorted table is ordered by the rank and is a permutation of the input table |
| Grouping.SortBySum | main.py:57 | sorting keeps the total of the table |
| Grouping.SortByKeys | main.py:57 | sorting keeps the set of keys and keeps keys distinct |
| Dashboard.Filter | main.py:45-67 | `filter` returns exactly the data rows that match the selection, with both tables derived from those rows |
| Dashboard.FilterRows | main.py:45-50 | a row is in the filtered result exactly when it is in the data and its City, Customer_type and Gender are each selected |
| Dashboard.MatchIndices | main.py:46-50 | the mask positions ascend strictly, each holds a matching row, and every matching row's position is included |
| Dashboard.FilterKeepsOrder | main.py:46-50 | the filtered rows are the data rows at the mask positions, in ascending position order |
| Dashboard.FilterAllMatching | main.py:46-50 | when every row matches, the filter returns the data unchanged |
| Dashboard.FullSelectionKeepsAll | main.py:148-150 | with each selection its full domain, the filter returns every row |
| Dashboard.ProductLineTable | main.py:53-59 | the product-line table is sorted by total, has one distinct entry per product line present, holds each line's sum of Total, and its totals add up to the filtered sales |
| Dashboard.HourTable | main.py:62-65 | the hour table has strictly ascending hours, one per known hour present, each with the sum of Total over the rows at that hour; rows with a missing hour are dropped, and the totals add up to the sales of the rows with a known hour |
| Dashboard.TimedSumWhere | main.py:62-63 | summing the rows with a known hour by hour gives, for each hour, the sum over all rows at that hour |
| Dashboard.HourTableConserves | main.py:62-63 | when every row has a known hour, the hour table's totals add up to the filtered sales |
| Dashboard.HoursAscending | main.py:62-63 | a table sorted by hour with distinct hours has strictly ascending hours |
| Dashboard.OnFilter | main.py:31-42 | an empty selection raises the error notification and leaves the state unchanged; otherwise all three results are replaced by `filter`'s output and nothing is raised |
| Dashboard.OnFilterIdempotent | main.py:31-42 | handling the same selection twice gives the same state and notification as handling it once |
| Dashboard.OnFilterKeepsCoherent | main.py:40-42 | after any filter event the filtered rows come from the data and both tables are derived from them |
| Dashboard.InitialState | main.py:148-150 | the start-up state selects every domain value, shows every row, and derives both tables from them |
| Dashboard.InitialStateShowsAll | main.py:147-150 | the start-up state shows every row, with both tables derived from them |
| Dashboard.InitialSelectionNonEmpty | main.py:147-150 | the start-up selections are all non-empty exactly when the table has rows |
| Dashboard.SingleCitySales | main.py:81 | selecting one city with every customer type and gender gives total sales equal to that city's sum of Total |

## Left out

- Spreadsheet loading (`pd.read_excel`, main.py:6-13) is file I/O. The model starts from a sequence of `Sale` records.
- The GUI is not modelled: page layout, selectors, charts, table, theme toggle, `Gui(...).run` (main.py:74-157) and the chart layout dictionary (main.py:24-28). `notify` is modelled only as the notification value `OnFilter` returns.
- The average sales and average rating cards use float means and Python's `round` (main.py:85, main.py:90-91). They are not modelled.
- Formatting.ToText: takes an integer. The `int()` truncation of a float total in `to_text` is not modelled.
- Formatting.Stars: takes the already rounded integer rating.
- TimeOfDay.ParseHour: seconds 60 and 61 count as malformed. The `%S` pattern admits them, and whether the conversion then rolls them over is not modelled. The seconds field is checked against the `%M` pattern's digits with maximum 59.
- TimeOfDay.ParseHour: only ASCII digits count as digits. The pattern's `\d` also matches other Unicode decimal digits.
- Dashboard.ProductLineTable: the order of entries with equal totals is not stated. `sort_values` uses quicksort by default, which is not stable, so the source fixes no order for ties. The model's insertion sort happens to keep tied entries in first-appearance order.
- The index-to-column copies (main.py:59, main.py:65) are modelled only as the key each entry carries.
- Pandas dtype and index details are not modelled. A missing hour is `None`; the float column pandas uses to hold it is not modelled.
- `groupby` sorts its keys. The product-line table is re-sorted by total straight after, and the hour table is sorted by hour, so the model groups in first-appearance order and sorts afterwards.
- Float summation rounding is not modelled. Totals are exact `real` sums, so the order in which `groupby().sum()` adds values does not matter here.
- Concurrency and per-session isolation are not modelled. The model holds one session state.

## Notes

- `filter` (main.py:45-50) has no guard against empty selections; only `on_filter` (main.py:32-38) checks. `FilterRows` therefore accepts empty selections and returns no rows for them.
- The start-up call with the full domains (main.py:148-150) runs only when the file is the main program.
