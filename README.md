# Monthly price aggregation of `bitcoin_price`

This project models `extract_monthly_prices`, the one piece of computation in
the `bitcoin_price` script. It receives a daily price table from the market
data provider, indexed by date and carrying an `Open` column, and does three things:

1. It adds a `YearMonth` column to the caller's table. The column holds the
   monthly period of each row's date.
2. It groups the rows by that column. For each group it keeps the `first`
   and the `last` `Open`, with the groups in ascending month order.
3. It writes each period out as text (`"YYYY-MM"`) and parses it back into
   a timestamp, which is the first day of the month.

The model has four modules:

- `Wrappers` (`wrappers.dfy`): an `Option` type.
- `Calendar` (`calendar.dfy`): dates as (year, month, day), monthly periods,
  chronological order, the first day of a month, and the `"YYYY-MM"` text with
  its parsing.
- `Grouping` (`grouping.dfy`): the group-by with `first`/`last` over
  (key, Open) pairs. `GroupFirstLast` computes it by repeatedly taking the
  smallest key present, emitting the Open of that key's first and last rows,
  and continuing with the rows of the other keys. `IsMonthlyGrouping` is the
  independent description of the result. Three lemmas tie the two
  together: `GroupFirstLastIsGrouping`, `GroupingUnique` and
  `GroupFirstLastCharacterized`.
- `PriceAnalysis` (`price_analysis.dfy`): daily and monthly rows, the pure
  monthly table `MonthlyPrices`, and the lemmas about it. It also has the
  `DailyFrame` class, the caller's table that line 33 changes in place, and
  the method `ExtractMonthlyPrices`.

Open prices are a type parameter `V`. They are only copied, never computed.

pandas' `first` and `last` go by row order, not by date. So "first is the
earliest-dated row of the month" holds only when the rows are in date order,
which is how the provider delivers them. The model accepts rows in any order,
as the code does, and its aggregation always follows row order
(`MonthBoundaryRows`, and `RowOrderDecidesFirst` for an example). It proves the earliest/latest-date statements
(`FirstIsEarliest`, `LastIsLatest`) only for chronological tables. For the
same reason, the result does not stay the same when rows within a month are
permuted. Months come out in strictly ascending order, because `groupby`
sorts its keys.

## Model

| member | source | states |
|---|---|---|
| `Calendar.MonthStart` | price_analysis.py:37-39 | the timestamp of a period lies in that period; it is a real date for months 1 to 12; no other date of the month comes before it |
| `Calendar.PeriodMonotone` | price_analysis.py:33 | tagging keeps chronological order: a later date never gets an earlier period |
| `Calendar.MonthStartOrder` | price_analysis.py:37-39 | month timestamps are ordered exactly as their periods are (both directions) |
| `Calendar.PeriodString` | price_analysis.py:38 | the text of a period is seven characters: four digits, a dash, two digits |
| `Calendar.ParseMonthString` | price_analysis.py:37 | whatever the parse accepts becomes a real date on day 1 of a month, from seven-character "YYYY-MM" text only |
| `Calendar.MonthStampRoundTrip` | price_analysis.py:37-39 | reading back the text of a period gives the first day of that month |
| `Calendar.MonthStringRoundTrip` | price_analysis.py:37-39 | converse round trip: text that parses is exactly the text of the parsed date's period |
| `Grouping.ValuesNonEmpty` | price_analysis.py:34-35 | a key's group is non-empty if and only if the key occurs in the table |
| `Grouping.MinKey` | price_analysis.py:35 | the key chosen next is present in the table, and no present key is earlier |
| `Grouping.FirstIndex` | price_analysis.py:35 | the position found holds the key, and no earlier row does |
| `Grouping.LastIndex` | price_analysis.py:35 | the position found holds the key, and no later row does |
| `Grouping.FirstIndexValue` | price_analysis.py:35 | `first` of a group is the Open of the key's first row |
| `Grouping.LastIndexValue` | price_analysis.py:35 | `last` of a group is the Open of the key's last row |
| `Grouping.WithoutKey` | price_analysis.py:34-35 | dropping one key's rows removes exactly that key; every other group stays the same, in the same order |
| `Grouping.GroupFirstLast` | price_analysis.py:34-36 | every output key occurs in the input; keys are strictly ascending; there are as many output rows as distinct input keys |
| `Grouping.GroupCoversKey` | price_analysis.py:34-36 | every key of the input has its output row |
| `Grouping.GroupValues` | price_analysis.py:35 | each output row holds the first and the last element of its key's group |
| `Grouping.GroupBoundary` | price_analysis.py:35 | each output row's `first` and `last` come from that key's first and last rows in table order |
| `Grouping.GroupKeys` | price_analysis.py:34-36 | the output rows carry exactly the distinct keys of the input |
| `Grouping.GroupFirstLastIsGrouping` | price_analysis.py:34-36 | the computed aggregate meets `IsMonthlyGrouping`: ascending, the same keys as the input, first and last of each group |
| `Grouping.AscendingKeysUnique` | price_analysis.py:35 | two strictly ascending aggregates with the same key set have the same keys in the same places |
| `Grouping.GroupingUnique` | price_analysis.py:34-36 | at most one table meets `IsMonthlyGrouping` for a given input |
| `Grouping.GroupFirstLastCharacterized` | price_analysis.py:34-36 | a table meets `IsMonthlyGrouping` if and only if it is the computed aggregate |
| `PriceAnalysis.YearMonthColumn` | price_analysis.py:33 | the added column holds exactly the months of the rows, and on a chronological table it never goes back to an earlier month |
| `PriceAnalysis.ToMonthlyRows` | price_analysis.py:37-39 | each key becomes day 1 of its month, the timestamp read back from the key's "YYYY-MM" text; first and last are carried over |
| `PriceAnalysis.TaggedKeys` | price_analysis.py:33-35 | the grouping keys are exactly the calendar months of the rows |
| `PriceAnalysis.MonthlyPrices` | price_analysis.py:23-40 | one row per distinct month of the input; an empty table gives an empty result and only then; every stamp is day 1 of a month present in the input; months and stamps strictly ascending |
| `PriceAnalysis.MonthBoundaryRows` | price_analysis.py:34-36 | a month's `first` is the Open of its first row in table order and `last` that of its last row; both rows lie in that month |
| `PriceAnalysis.FirstIsEarliest` | price_analysis.py:35 | in a chronological table, `first` is the Open of the month's earliest-dated row |
| `PriceAnalysis.LastIsLatest` | price_analysis.py:35 | in a chronological table, `last` is the Open of the month's latest-dated row |
| `PriceAnalysis.SingleRowMonth` | price_analysis.py:35 | a month with a single row has that row's Open as both `first` and `last` |
| `PriceAnalysis.MonthCovered` | price_analysis.py:33-35 | every month that has a daily row has a monthly row |
| `PriceAnalysis.OneRowPerMonth` | price_analysis.py:35 | no two monthly rows share a month |
| `PriceAnalysis.StampsFromText` | price_analysis.py:37-39 | for real dates with four-digit years, every stamp of the monthly table is what parsing its period's text gives |
| `PriceAnalysis.RowOrderDecidesFirst` | price_analysis.py:35 | the same two January rows in the two row orders give different first values: row order, not date order, decides `first` |
| `PriceAnalysis.StampsAreValid` | price_analysis.py:37-39 | if the daily dates are real calendar dates, so is every month stamp |
| `PriceAnalysis.ExtractMonthlyPrices` | price_analysis.py:23-40 | the caller's rows are unchanged; the caller's table gains the YearMonth column; the result is the monthly table |
| `PriceAnalysis.SingleDayScenario` | price_analysis.py:23-40 | one row on 2021-06-15 with Open 50 gives one June 2021 row with first and last both 50 |
| `PriceAnalysis.TwoMonthTable` | price_analysis.py:23-40 | four rows on two January and two February days give the January row, then the February row, with the first and last Open of each |
| `PriceAnalysis.TwoMonthScenario` | price_analysis.py:23-40 | rows across January and February give the January row, then the February row, each with its first and last Open |

## Left out

- `download_bitcoin_data` (price_analysis.py:7-20) is a network call into yfinance. The daily table is given to the model as a value.
- `visualize_bitcoin_prices` (price_analysis.py:43-98) draws a matplotlib chart. Rendering and the two-decimal dollar labels are floating-point formatting.
- `get_and_visualize_bitcoin_prices` and the call at the end of the file (price_analysis.py:101-126) only chain the three stages with hard-coded arguments and print a message.
- Open prices are an abstract type. Floating-point values and pandas skipping NaN in `first`/`last` are not modelled.
- Dates are (year, month, day) triples. Time of day, time zones, and pandas' Period and Timestamp internals are not modelled.
- Every daily row has a real calendar date and an `Open` value, so the source's failure paths do not arise in the model. They are: a table without an `Open` column (a KeyError at line 35), an index that is not a date index (no `to_period`, at line 33), not-a-time dates (their rows are silently dropped by `groupby`), and a September 1677 period whose first day lies before the earliest pandas timestamp (which `to_datetime` rejects at line 37).
- The High, Low, Close, Adj Close and Volume columns are not read by the aggregation and are not part of the model. The column-label layout of the result (a two-level `("Open", "first")` header after `reset_index`) becomes the fields of `MonthlyRow`.
- `ParseMonthString` accepts only the seven-character "YYYY-MM" form that the period text takes here. The many other formats `to_datetime` accepts are not modelled.
- MonthStampRoundTrip: stated only for years 0 to 9999, the years with a four-digit text form. pandas timestamps lie within that range anyway.
- PeriodString: defined only for years 0 to 9999 and months 1 to 12, for the same reason.
