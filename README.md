# E-commerce dashboard analytics, modelled in Dafny

This project models the analytics layer of a Streamlit sales dashboard for a
Brazilian e-commerce order dataset (`Dashboard/dashboard.py`). Each report
function takes a flat table of order-line rows and returns a summary table.
It filters the rows, groups them by a key, aggregates each group (count, sum,
mean, count-where), and may then keep the top or bottom N rows. A growth
calculator then fills in, in place, each row's previous sales within its
category and the percentage change from them.

Layout, one module per file:

- `wrappers.dfy` — `Option`, used for nullable columns and undefined results.
- `orders.dfy` — the order-line row (`OrderLine`). It also holds time in whole seconds: midnight
  of a day, whole-day differences, and the calendar year of an instant.
- `grouping.dfy` — the generic group-by engine. `GroupBy` returns one group
  per distinct key. `OneRowPerKey` says that a report has exactly one row per
  key present. `GroupingConserves` proves that the groups add up to the table.
- `ranking.dfy` — generic `NLargest` / `NSmallest` and the per-group top-N
  (`TopPerGroup`). Each result is specified by `IsTopN` / `IsBottomN`: its
  size, the rows come from the table, and every kept row is at least (or at
  most) as large as every dropped row.
- `daily_orders.dfy`, `rfm.dfy`, `city_reports.dfy`, `sales_reports.dfy` —
  the report functions.
- `growth.dfy` — the growth calculator, a method over an array.

Modelling choices:

- Timestamps are integer seconds since 1970-01-01 00:00:00. Calendar dates
  are day numbers, and a date becomes the instant `day * 86400`.
- Python's `timedelta.days` rounds down. Dafny's `/` with a positive divisor
  also rounds down, so `WholeDays` is exact.
- Prices and means are exact `real`s. A missing (NaN) value is `None`.
- A column that may be missing from the whole table is a boolean argument:
  `hasCategoryColumn` of `CategoryTrends` and `CreateTop10SalesPerYear` for
  `product_category_name`, and `hasTotalSales` of `CalculateGrowth`.
- A missing category on one row is `category == None`. Grouping by category
  drops such rows, as pandas does for NaN keys (`Categorized`).

Where a natural reading of the dashboard differs from what the code does, the model follows the code:

- `create_top_10_sales_per_year` overwrites `year` in the caller's own
  table, not in a private copy (`Dashboard/dashboard.py:82`). The method
  therefore takes the caller's array and modifies it.
- `calculate_growth` takes the previous row of the same category in table
  order (`shift(1)`), not the previous period in chronological order. Rows
  in between may belong to other categories, and nothing re-sorts them.
- The RFM reference date is hard-coded as 2018-09-03. `Rfm.RfmAt` takes the
  reference instant as a parameter. `Rfm.CreateRfm` fixes it to that date,
  as the code does.

## Model

| member | source | states |
|---|---|---|
| `Orders.Midnight` | Dashboard/dashboard.py:13-14 | a date becomes the instant 00:00:00 of that day: a whole number of days, and the day it came from |
| `Orders.WholeDays` | Dashboard/dashboard.py:26 | the `.days` of a time difference is the difference rounded down: `d*86400 <= seconds < (d+1)*86400` |
| `Orders.YearOfNewYear2016` | Dashboard/dashboard.py:82 | the year of an instant changes exactly at midnight of 1 January (2015-12-31 23:59:59 is 2015; 2016-01-01 00:00 is 2016) |
| `Orders.YearOfReferenceDay` | Dashboard/dashboard.py:24 | the RFM reference instant 1535932800 falls in 2018 |
| `DailyOrders.InWindow` | Dashboard/dashboard.py:13-15 | keeps exactly the rows with `midnight(start) <= purchase <= midnight(end)`, both bounds included; a purchase later on the end day is excluded |
| `DailyOrders.InWindowMultiplicity` | Dashboard/dashboard.py:13-15 | a row inside the window appears in the result exactly as many times as in the table, and a row outside it not at all, so duplicate order lines are all counted |
| `DailyOrders.InWindowIdempotent` | Dashboard/dashboard.py:15 | filtering twice with the same window gives the same rows |
| `DailyOrders.InWindowReversedIsEmpty` | Dashboard/dashboard.py:13-15 | a start date after the end date gives an empty table, not an error |
| `DailyOrders.DailyOrders` | Dashboard/dashboard.py:12-20 | one row per distinct purchase timestamp in the window and none for an absent one; `total_orders` is that timestamp's row count and `total_sales` its price sum |
| `DailyOrders.DailyTotalsMatchWindow` | Dashboard/dashboard.py:16-19 | summed over the report, `total_orders` equals the number of filtered rows and `total_sales` equals their total price (the figures shown at line 124) |
| `Grouping.Select` | Dashboard/dashboard.py:16 | a group holds exactly the rows with the given key, all of them from the table |
| `Grouping.Keys` | Dashboard/dashboard.py:16 | the distinct keys: no repeats, every row's key is present, and each key has at least one row |
| `Grouping.GroupBy` | Dashboard/dashboard.py:16-19 | one non-empty group per distinct key, each holding exactly that key's rows; never more groups than rows |
| `Grouping.GroupingConserves` | Dashboard/dashboard.py:16-19 | the group sizes add up to the number of rows, and the group sums of any column add up to that column's total |
| `Grouping.SummaryHasOneRowPerKey` | Dashboard/dashboard.py:34-37 | a table with one summary row per group has exactly one row per key present and none for an absent key |
| `Ranking.NLargest` | Dashboard/dashboard.py:39 | returns `min(N, rows)` rows, all from the table, largest first; each kept row is at least as large as each dropped row (up to ties) |
| `Ranking.NSmallest` | Dashboard/dashboard.py:40 | returns `min(N, rows)` rows, all from the table, smallest first; each kept row is at most as large as each dropped row (up to ties) |
| `Ranking.KeepsAllWhenFew` | Dashboard/dashboard.py:39-40 | with at most N rows, both selections keep the whole table |
| `Ranking.StrictMaximumKept` | Dashboard/dashboard.py:52 | a row strictly larger than every other row is always among the top N (N > 0) |
| `Ranking.StrictMinimumKept` | Dashboard/dashboard.py:40 | a row strictly smaller than every other row is always among the bottom N (N > 0) |
| `Ranking.TopPerGroup` | Dashboard/dashboard.py:74-76 | each group's rows in the result are a top-N choice from that group's rows, and every result row comes from the table |
| `Ranking.GroupSlice` | Dashboard/dashboard.py:74-76 | in the concatenated per-group selections, one key's rows are exactly that key's own selection |
| `Rfm.LatestPurchase` | Dashboard/dashboard.py:26 | the maximum purchase timestamp of a customer's rows: no row is later, and some row has it |
| `Rfm.RfmAt` | Dashboard/dashboard.py:23-30 | one row per customer present; `frequency` is their row count, `monetary` their price sum, and `recency` the whole days from their latest purchase to the reference |
| `Rfm.CreateRfm` | Dashboard/dashboard.py:23-30 | the dashboard's segmentation against the fixed instant 2018-09-03 00:00: one row per customer present, with row count, price sum and whole days since the latest purchase |
| `Rfm.RecencyNonNegative` | Dashboard/dashboard.py:26 | recency is never negative when no purchase comes after the reference instant |
| `Rfm.RecencySamples` | Dashboard/dashboard.py:24-26 | against 2018-09-03, a purchase at 2018-08-20 00:00 has recency 14, and one at 10:00 that day has recency 13 |
| `Rfm.RecencyAfterReference` | Dashboard/dashboard.py:26 | a purchase after the reference instant gets a negative recency; it is not clamped |
| `Rfm.TopCustomers` | Dashboard/dashboard.py:256 | the five biggest spenders, as a top-5 selection on `monetary` |
| `CityReports.LateAndOnTimeWithinTotal` | Dashboard/dashboard.py:47-49 | late count + on-time count <= total, with equality exactly when no delivery was early |
| `CityReports.CityDeliveryTable` | Dashboard/dashboard.py:34-37 | one row per (city, state) present; `avg_delivery_delay` is the mean delay of its rows and `total_orders` their count |
| `CityReports.CityLatenessTable` | Dashboard/dashboard.py:46-50 | one row per (city, state) present; counts rows with delay > 0 and delay == 0 and all rows, and late + on-time <= total |
| `CityReports.CityDeliveryAnalysis` | Dashboard/dashboard.py:39-42 | the 5 most-delayed cities are a top-5 choice on mean delay; the 5 fastest are a bottom-5 choice on it |
| `CityReports.CityLatenessAnalysis` | Dashboard/dashboard.py:52-55 | the most-late and most-on-time lists are each a top-5 choice on their own column, chosen independently |
| `CityReports.LatenessLeaders` | Dashboard/dashboard.py:52-53 | for any lateness table, the first list is a top-5 choice on late deliveries and the second a top-5 choice on on-time deliveries |
| `CityReports.LeadersAreListed` | Dashboard/dashboard.py:52-53 | in a lateness table, a city with strictly the most late deliveries is on the most-late list, and one with strictly the most on-time deliveries is on the most-on-time list |
| `SalesReports.MonthlySalesReport` | Dashboard/dashboard.py:58-62 | one row per (year, month) present and none for an absent one, with its price sum |
| `SalesReports.Categorized` | Dashboard/dashboard.py:70 | every row with a category is in the result, and every result row has a category and comes from the table: rows whose category is missing drop out of category groupings |
| `SalesReports.CategorizedMultiplicity` | Dashboard/dashboard.py:70 | a row with a category appears in the result exactly as many times as in the table, and a row without one not at all, so category sums and counts see every duplicate |
| `SalesReports.CategoryTotals` | Dashboard/dashboard.py:70-72 | one row per (year, category) present among rows with a category, with its price sum |
| `SalesReports.TopPerYear` | Dashboard/dashboard.py:74-76 | for each year, that year's result rows are a top-N choice by `total_sales` from that year's rows; nothing else is added |
| `SalesReports.CategoryTrends` | Dashboard/dashboard.py:65-78 | no result exactly when the category column is missing; otherwise each year keeps `min(10, its rows)` rows, each selling at least as much as every dropped row of that year |
| `SalesReports.SetPurchaseYears` | Dashboard/dashboard.py:82 | overwrites, in place, each row's `year` with the calendar year of its purchase instant; every other field and the row order stay as they were |
| `SalesReports.CreateTop10SalesPerYear` | Dashboard/dashboard.py:81-91 | overwrites each row's `year` in the caller's array with the year of its purchase, changing nothing else; then gives the top 10 per year of the updated table; when the category column is missing it returns no result where the source raises `KeyError` (see Left out) |
| `SalesReports.ProductSalesTable` | Dashboard/dashboard.py:192 | one row per category present, with its price sum |
| `SalesReports.ProductOrdersTable` | Dashboard/dashboard.py:221 | one row per category present, with its row count |
| `SalesReports.ProductSalesRanking` | Dashboard/dashboard.py:192-194 | top-5 and bottom-5 categories by total sales |
| `SalesReports.ProductOrdersRanking` | Dashboard/dashboard.py:221-223 | top-5 and bottom-5 categories by number of order lines |
| `Growth.LastSalesIsLatest` | Dashboard/dashboard.py:99 | the last sales value of a category is absent exactly when no row has that category; otherwise it is the value of a row with no later row of that category |
| `Growth.PreviousIsNearestEarlier` | Dashboard/dashboard.py:99 | `previous_month_sales` of a row is the `total_sales` of the nearest earlier row, in table order, of the same category; it is absent exactly for a first row or a row without a category |
| `Growth.GrowthPercent` | Dashboard/dashboard.py:100 | a growth exists exactly when a previous value exists and is non-zero; when it exists, `current == previous * (1 + growth/100)` |
| `Growth.CalculateGrowth` | Dashboard/dashboard.py:94-101 | without a `total_sales` column the table is unchanged; otherwise every row gets its previous value and growth as specified above |
| `Growth.GrowthSample` | Dashboard/dashboard.py:99-100 | one category with sales 100, 150, 0, 50 gives growth none, 50, -100, none (the last because its previous value is 0) |

## Left out

- `main()` is not modelled. It reads the CSV from a URL, draws the Streamlit
  widgets and makes the seaborn/matplotlib charts (axis limits, "K" labels).
  Only the rankings it computes inline (lines 192-194, 221-223 and 256) are
  modelled.
- `st.error` is a logging side effect. The model keeps only the result: no
  table from `CategoryTrends`, an unchanged table from `CalculateGrowth`.
- Floating point is not modelled. Sums and means are exact reals. A growth
  that pandas gives as NaN or ±inf (no previous value, or a previous value of
  zero) is `None`.
- Output order is not specified. pandas sorts the group keys and breaks
  `nlargest` ties by first occurrence. The model lists groups in its own
  order, and every contract holds up to ties and reordering.
- `rfm.describe()` (line 252) is not modelled. It computes descriptive
  statistics for display only.
- `Orders.CivilYear` is the standard days-to-civil-date conversion. It is
  proved only at the sample instants above, not for all dates. Parsing dates
  is not part of this model, and `year` and `month` are given fields of each row.
- `calculate_growth` on a table without a `product_category_name` column is
  not modelled. pandas raises `KeyError` there. In the model every row
  carries an optional category instead.
- `order_delivered_customer_date` is not modelled. No core function reads it;
  the delay arrives precomputed in `deliveryDelayDays`.
- Null values in key columns other than the category are not modelled
  (customer, city, state, timestamp, year, month). These columns are always
  present in the model. So is `order_id`, so `count` is the number of rows.
- Not proved: the fastest-5 and slowest-5 delay lists are disjoint once
  there are more than 5 cities. It is false for 6 to 9 cities, and with
  ties. What is proved is the converse case: with at most N cities both
  lists hold every city (`Ranking.KeepsAllWhenFew`).
- SalesReports.CreateTop10SalesPerYear: the source has no check for a missing
  `product_category_name` column. The `groupby` at line 83 raises `KeyError`
  after line 82 has already overwritten `year` in the caller's table. The
  model performs the same overwrite and then returns no result instead of
  raising.
