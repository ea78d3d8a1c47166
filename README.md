# Brazilian e-commerce dashboard: a Dafny model of its summary tables

`dashboard.py` is a Streamlit dashboard over a merged table of order lines from
a Brazilian marketplace. The sidebar picks a date range, the lines whose
approval timestamp falls inside it are kept, and five summary tables are
computed from them:

- the daily orders table, with one row per calendar day of approval giving the
  distinct orders and the payment sum (`create_daily_orders_df`). The "Total
  Pesanan" and "Total Revenue" metrics are its column sums;
- the number of distinct products per product category, largest first
  (`create_sum_order_items_df`). Its first five rows are shown as the best
  categories, and the first five of its ascending re-sort as the worst;
- the number of distinct customers per state, largest first (`create_bystate_df`);
- the RFM table, with one row per customer giving recency, frequency and
  monetary value (`create_rfm_df`);
- the last six rows of the monthly orders table, resampled by calendar month
  of purchase and labelled `YYYY-MM` (`create_monthly_df`).

This project models those computations as pure Dafny functions over a
sequence of `OrderLine` records and proves what the tables contain.

Representation:

- A timestamp is a whole number of seconds since 1970-01-01 00:00:00.
- A date is a day number counted from the same origin.
- A month is the number of whole months since January 1970.
- A missing approval timestamp (`NaT`) and a missing category (`NaN`) are `None`.
- Payments are integers (centavos).

Modules, one file each:

| file | module | what it holds |
|---|---|---|
| records.dfy | Records | the record, day arithmetic, payment sum, distinct order ids, `min`/`max` of a column |
| calendar.dfy | Calendar | Gregorian month starts, the month of a day, `YYYY-MM` labels and their parser |
| buckets.dfy | Buckets | `resample(...).agg({'order_id': 'nunique', 'payment_value': 'sum'})`, shared by the daily and monthly tables |
| groups.dfy | Groups | `groupby(key).column.nunique()` |
| ranking.dfy | Ranking | the descending sort, the category and state tables, `head()`, best and worst |
| rfm.dfy | Rfm | `create_rfm_df` |
| filter.dfy | DateFilter | the date-range filter as written and the whole-day filter |
| daily.dfy | DailyOrders | `create_daily_orders_df` and its two metrics |
| monthly.dfy | MonthlyOrders | `create_monthly_df` |

## Model

| member | source | states |
|---|---|---|
| Records.RevenueAppend | dashboard.py:18 | the payment sum of `a + b` is the payment sum of `a` plus that of `b` |
| Records.Earliest | dashboard.py:71 | `min()` of a column: None exactly for an empty column, otherwise a value of the column that no value is below |
| Records.Latest | dashboard.py:72 | `max()` of a column: None exactly for an empty column, otherwise a value of the column that no value exceeds |
| Records.Approvals | dashboard.py:35 | the approval column without its `NaT` entries: a timestamp is in it iff some line was approved at that time |
| Records.NoApprovals | dashboard.py:35 | a table whose approval column has no timestamps has no approved line |
| Records.DayOfBounds | dashboard.py:41 | `.dt.date` truncates: a timestamp lies between midnight of its date and midnight of the next date |
| Records.DayOfMonotone | dashboard.py:42 | a later timestamp never has an earlier date |
| Calendar.MonthStartClosedForm | dashboard.py:50 | summing the Gregorian month lengths from January 1970 gives the closed form with leap years counted by division by 4, 100 and 400 |
| Calendar.MonthStartIncreasing | dashboard.py:50 | a later month starts on a later day |
| Calendar.MonthOf | dashboard.py:50 | the month `resample('M')` puts a day in; what it means is stated by MonthOfBounds, MonthOfUnique and MonthOfMonotone below, which pin it down as the one month containing the day |
| Calendar.MonthOfBounds | dashboard.py:50 | the month `resample('M')` puts a day in starts on or before that day, and the next month starts after it |
| Calendar.MonthOfUnique | dashboard.py:50 | a day lies in exactly one month: any month that starts on or before it and ends after it is its month |
| Calendar.MonthOfMonotone | dashboard.py:50 | a later day is never in an earlier month |
| Calendar.January2018 | dashboard.py:50 | day 17532 (2018-01-01) is in month 576, the month labelled 2018-01 |
| Calendar.Label | dashboard.py:55 | the `%Y-%m` label of a month: at least four characters, with the dash third from the end; LabelRoundTrip and LabelInjective below state that it names the month exactly |
| Calendar.MonthStart2018 | dashboard.py:50 | January 2018 starts on day 17532 and February 2018 on day 17563 |
| Calendar.Label2018 | dashboard.py:55 | month 576 is labelled `2018-01` |
| Calendar.DecimalRoundTrip | dashboard.py:55 | the decimal digits of a year read back as that year |
| Calendar.LabelRoundTrip | dashboard.py:55 | the `%Y-%m` label of a month parses back to that month: the part before the dash reads as its year and the two digits after it as its month of the year |
| Calendar.LabelInjective | dashboard.py:55 | two months with the same label are the same month |
| Buckets.Bucketed | dashboard.py:16 | the lines that fall in some bucket: a line is kept iff it has a timestamp |
| Buckets.BucketedCounts | dashboard.py:16 | every line with a timestamp is kept as many times as it occurs, and every other line is dropped |
| Buckets.InBucket | dashboard.py:16 | the lines of bucket k are exactly the lines whose timestamp falls in k |
| Buckets.InBucketCounts | dashboard.py:16 | every line of bucket k is kept as many times as it occurs, so identical lines each add their payment to the bucket's sum |
| Buckets.RowOfBucket | dashboard.py:16-19 | a bucket's row counts the distinct order ids of the lines in that bucket and sums their payments |
| Buckets.OccupiedRow | dashboard.py:17 | a bucket holding a line has at least one order |
| Buckets.OrdersHaveLines | dashboard.py:17 | a bucket with an order holds a line |
| Buckets.EmptyRow | dashboard.py:16-19 | a bucket without orders has revenue 0 |
| Buckets.BucketedAll | dashboard.py:16 | when every line has a timestamp, no line is dropped |
| Buckets.Span | dashboard.py:16 | the range of a resample runs from its first bucket to its last, first <= last |
| Buckets.SpanNone | dashboard.py:16 | there is no range exactly when no line has a timestamp |
| Buckets.SpanEnds | dashboard.py:16 | the first and the last bucket of the range each hold a line |
| Buckets.SpanCovers | dashboard.py:16 | every line with a timestamp falls inside the range |
| Buckets.Resample | dashboard.py:16-21 | one row per bucket from the first occupied bucket to the last, consecutive and ascending; empty when no line has a timestamp |
| Buckets.ResampleEmpty | dashboard.py:16 | a resample is empty exactly when no line has a timestamp |
| Buckets.ResampleRows | dashboard.py:16-19 | every row, empty buckets included, is the aggregate of the lines in its own bucket |
| Buckets.ResampleEnds | dashboard.py:16 | the first and the last rows have orders, and every line with a timestamp falls between their buckets |
| Buckets.RowsFromRevenue | dashboard.py:18 | the revenue column of a run of buckets adds up to the payment sum of the lines in them |
| Buckets.RowsFromOrders | dashboard.py:17 | the order column of a run of buckets adds up to at least their distinct orders, and exactly that when no order spans two buckets |
| Buckets.OrderCountSplit | dashboard.py:17 | the distinct orders of two adjacent spans number at most the sum of each, and exactly that sum when no order spans two buckets |
| Buckets.ResampleRevenue | dashboard.py:18 | the revenue column of a resample adds up to the payment sum of all lines with a timestamp |
| Buckets.ResampleOrders | dashboard.py:17 | the order column of a resample adds up to at least the distinct orders among the lines with a timestamp, and exactly that when no order spans two buckets |
| Groups.Keys | dashboard.py:26 | the `groupby` keys: each once, and exactly the non-missing keys some line carries |
| Groups.MembersNonEmpty | dashboard.py:26 | a group that exists has at least one distinct member |
| Groups.Tally | dashboard.py:26 | each row of the `nunique` table holds its key and the number of distinct counted values among the lines with that key |
| Groups.TallyOfKeys | dashboard.py:26 | the `nunique` table has one row per group, each key once, exactly the keys present, each count the distinct members (at least 1) |
| Ranking.Insert | dashboard.py:26 | inserting a row adds exactly that row |
| Ranking.InsertSorted | dashboard.py:26 | inserting into a table whose counts never increase keeps them so |
| Ranking.SortDescending | dashboard.py:26 | `sort_values(ascending=False)` returns a permutation of its input |
| Ranking.SortSorted | dashboard.py:26 | after `sort_values(ascending=False)` the counts never increase |
| Ranking.SortUnique | dashboard.py:26 | sorting keeps every key unique |
| Ranking.RankedTable | dashboard.py:26-30 | the category table (line 26) lists every non-missing category once with its distinct-product count, and the state table (line 30) every state once with its distinct-customer count; each count is at least 1 and counts never increase down the table |
| Ranking.CategoryTable | dashboard.py:25-27 | `create_sum_order_items_df`: counts never increase down the table, each category appears once, and each row's count is the number of distinct products of its category, at least 1; RankedTable adds that every non-missing category is listed |
| Ranking.StateTable | dashboard.py:29-31 | `create_bystate_df`: counts never increase down the table, each state appears once, and each row's count is the number of distinct customers of its state, at least 1; RankedTable adds that every state is listed |
| Ranking.Reverse | dashboard.py:133 | the mirror image of a table |
| Ranking.AscendingResort | dashboard.py:133 | the ascending re-sort of the descending table has the same rows, with counts never decreasing |
| Ranking.Best | dashboard.py:126 | the best-selling chart by `head()`: the first min(5, n) rows of the table, unchanged and in order |
| Ranking.Worst | dashboard.py:133 | the worst-selling chart: the last min(5, n) rows of the table, last row first; AscendingResort states that they come from the ascending re-sort |
| Ranking.SeparatedEnds | dashboard.py:126 | in a descending table of at least ten rows, every "best" count is >= every "worst" count, and with unique keys no key is on both lists |
| Ranking.BestAndWorst | dashboard.py:133 | with at least ten categories, every "best" category has at least as many distinct products as every "worst" one, and no category is on both lists |
| Rfm.LinesOf | dashboard.py:34 | the lines of one customer are exactly the lines carrying that customer id |
| Rfm.LinesOfCounts | dashboard.py:34 | every line of the customer is kept as many times as it occurs, so identical lines each add their payment to the monetary column |
| Rfm.Dates | dashboard.py:42 | `.dt.date` of a column: a date is in it iff some timestamp of the column falls on it |
| Rfm.Recency | dashboard.py:41-43 | a customer's recency, when present, is never negative; RecencyNonNegative adds when it is present and LatestCustomer when it is 0 |
| Rfm.ApprovalNotAfterLatest | dashboard.py:41-43 | a customer's latest approval date is present in the table and no later than the table's latest approval date |
| Rfm.RfmTable | dashboard.py:33-46 | `create_rfm_df`: no customer has two rows, and each row is built from its own customer's lines; RfmCustomers adds that every customer is listed and RfmRowValues what the columns hold |
| Rfm.RowsFor | dashboard.py:34-39 | the RFM rows, one per listed customer, built from that customer's lines |
| Rfm.CustomerRow | dashboard.py:34-39 | every customer of the input has a row, built from their lines |
| Rfm.RfmCustomers | dashboard.py:34-39 | exactly one row per distinct customer: no customer twice, and a customer is listed iff some line is theirs |
| Rfm.RfmRowValues | dashboard.py:36-37 | frequency is the number of distinct order ids of the customer (at least 1), monetary is the sum of their payments |
| Rfm.LatestDateBounds | dashboard.py:42 | no approval falls on a later date than the table's latest approval date |
| Rfm.LatestDateSource | dashboard.py:42 | the table's latest approval date is the date of some line's approval |
| Rfm.LatestApprovalSource | dashboard.py:35 | a customer's `max` approval timestamp is the approval of one of their lines |
| Rfm.LatestApprovalBounds | dashboard.py:35 | no approval of a customer is later than their `max` approval timestamp |
| Rfm.RecencyNonNegative | dashboard.py:41-43 | recency is present iff the customer has an approved line, and then it is >= 0 |
| Rfm.LatestCustomer | dashboard.py:41-43 | the customer of a line approved on the table's latest date has recency 0 |
| Rfm.RecencyZero | dashboard.py:41-43 | when some line is approved, some customer's recency is 0 |
| Rfm.FilteredRecencyZero | dashboard.py:41-43 | on a non-empty filtered table some customer's recency is 0 |
| DateFilter.Filter | dashboard.py:82-83 | a line survives iff it has an approval timestamp t with midnight(start) <= t <= midnight(end) |
| DateFilter.FilterCounts | dashboard.py:82-83 | every surviving line is kept as many times as it occurs in the input, and every other line is dropped |
| DateFilter.FilterAppend | dashboard.py:82-83 | filtering preserves relative order: the filter of `a + b` is the filter of `a` followed by the filter of `b` |
| DateFilter.FilterDropsEndDay | dashboard.py:83 | a line approved after 00:00:00 on the end date does not survive |
| DateFilter.SameDayExample | dashboard.py:82-83 | a line approved at 17:40:06 on 2018-09-03 does not survive the range 2018-09-03 .. 2018-09-03 |
| DateFilter.RangeVersusDays | dashboard.py:82-83 | the test as written and the whole-day test agree except on the end date, where the test as written passes only a line approved at exactly 00:00:00 |
| DateFilter.DefaultRangeDropsLatest | dashboard.py:79 | with the default range `[min_date, max_date]` the filter as written drops every line approved at the latest approval time, unless that time is exactly midnight |
| DateFilter.FilterDays | dashboard.py:82-83 | the whole-day filter: a line survives iff it was approved on a date from start to end, both included |
| DateFilter.FilterDaysCounts | dashboard.py:82-83 | under the whole-day test every surviving line is kept as many times as it occurs in the input, and every other line is dropped |
| DateFilter.FilterDaysAppend | dashboard.py:82-83 | the whole-day filter preserves relative order: the filter of `a + b` is the filter of `a` followed by the filter of `b` |
| DateFilter.DefaultRangeKeepsAll | dashboard.py:79 | with the default range the whole-day filter keeps exactly the approved lines |
| DailyOrders.DailyOrders | dashboard.py:15-22 | `create_daily_orders_df`: the rows are consecutive days with no gap; DailyDays, DailyRow and DailyTotals state what the rows hold |
| DailyOrders.ApprovedOn | dashboard.py:16 | the lines of day d are exactly the lines approved on d |
| DailyOrders.DailyDays | dashboard.py:16-21 | the table is empty iff no line is approved; otherwise its first and last days have orders and every approval falls between them |
| DailyOrders.DailyRow | dashboard.py:15-22 | rows are consecutive days; each counts the distinct orders approved that day and sums their payments; a day without approvals has 0 orders and 0 revenue |
| DailyOrders.DailyTotals | dashboard.py:100 | "Total Pesanan" is at least the number of distinct approved orders, and equals it when no order's lines are approved on two different days; "Total Revenue" sums the payments of the approved lines |
| DailyOrders.FilteredTotals | dashboard.py:100 | on the filtered table, "Total Revenue" is the payment sum of all filtered lines and, when no filtered order is approved on two different days, "Total Pesanan" is their number of distinct orders |
| DailyOrders.WholeDayTotals | dashboard.py:104 | the same two metrics over the whole-day filter |
| DailyOrders.DaysWithinRange | dashboard.py:82-83 | with the whole-day filter every row of the daily table is one of the chosen days |
| MonthlyOrders.MonthlyOrders | dashboard.py:48-59 | `create_monthly_df`: at most six rows; MonthlySize, MonthlyLabel, MonthlyRow and MonthlyLatest below state which months they are and what they hold |
| MonthlyOrders.LastSix | dashboard.py:58 | `iloc[-6:]` gives the last min(6, n) rows, in order |
| MonthlyOrders.Labelled | dashboard.py:55 | every row keeps its counts and gets the `%Y-%m` label of its month |
| MonthlyOrders.PurchasedIn | dashboard.py:50 | the lines of month m are exactly the lines purchased in m |
| MonthlyOrders.MonthlySize | dashboard.py:58 | at most six rows, none exactly for an empty input, otherwise min(6, the number of months from the first purchase month to the last) |
| MonthlyOrders.MonthlyAt | dashboard.py:50-58 | row i is the resample row of month last - (n - 1) + i, labelled |
| MonthlyOrders.MonthlyLabel | dashboard.py:55 | row i's label reads back as month last - (n - 1) + i: the rows are consecutive ascending months ending at the latest purchase month |
| MonthlyOrders.MonthlyRow | dashboard.py:50-53 | row i counts the distinct orders purchased in its month and sums their payments |
| MonthlyOrders.MonthlyLatest | dashboard.py:50-58 | the last row is labelled with the last month of the purchase range; it has orders, its label is some line's purchase month, and no line was purchased in a later month |

## Left out

- The Streamlit page, the matplotlib and seaborn plots, and the styling are left out. They are presentation only.
- The date picker itself is left out, including its failure when only one date is chosen. Its default range `[min_date, max_date]` is modelled through `Records.Earliest` and `Records.Latest`.
- Reading the CSV file, parsing timestamps, and the sort by approval time at load time are left out. Lines arrive with whole-second timestamps, in whatever order the caller gives.
- Every id, the state and the purchase timestamp are assumed present. Only the category and the approval timestamp can be missing.
- Timestamps before 1970 are not modelled, because timestamps are natural numbers.
- Babel's currency formatting of "Total Revenue" is left out. It is a locale-dependent foreign call.
- Payments are integers, so floating-point sums and the means and rounding of the RFM columns are not modelled.
- The SettingWithCopy side effect of converting the purchase column of the caller's frame is left out. The conversion does not change any value.
- Groups.Keys: groups come out in order of first appearance, whereas pandas' `groupby` sorts its keys. The set of rows is the same.
- Ranking.SortDescending: the sort is a stable insertion sort. Pandas' default quicksort is not stable, so rows of equal count may come out in another order.
- Ranking.Worst: the ascending re-sort at line 133 is modelled as the mirror image of the descending table. This fixes one order among rows of equal count, which pandas leaves unspecified. The disjointness of best and worst in `BestAndWorst` depends on this mirror tie-break. With a stable ascending re-sort instead, ten or more categories of equal count would give the same first five rows on both charts.
- Rfm.RfmTable: rows come in order of first appearance of the customer, not sorted by customer id.
- DailyOrders.DailyTotals: "Total Pesanan" is proved equal to the number of distinct orders only when no order's lines are approved on two different days. Otherwise such an order is counted once per day, and the lemma states `>=`.
- The monthly table buckets on purchase time while the filter selects on approval time, so its months may lie outside the chosen range. The model keeps this as written and states nothing more about it.

## Findings

| source | as written | input that shows it | evidently intended | confidence | as-written member | corrected member |
|---|---|---|---|---|---|---|
| dashboard.py:82-83 | the end bound is `str(end_date)`, which compares as 00:00:00 at the start of the end date, so lines approved later that day are dropped | a line approved 2018-09-03 17:40:06 with the range 2018-09-03 .. 2018-09-03 is dropped (DateFilter.SameDayExample); with the default range the latest approved line is dropped unless approved at midnight (DateFilter.DefaultRangeDropsLatest) | keep every line approved on a date from start to end, both included | not executed | DateFilter.Filter | DateFilter.FilterDays |

The corrected filter is the one `DateFilter.DefaultRangeKeepsAll`,
`DailyOrders.WholeDayTotals` and `DailyOrders.DaysWithinRange` reason about.
`DateFilter.RangeVersusDays` states exactly where the two filters differ.
