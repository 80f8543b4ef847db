/**
 * The daily-orders report: restrict the order lines to a window of calendar
 * days, then count the orders and add up the sales of each distinct
 * purchase timestamp.
 */
module DailyOrders {
  import opened Orders
  import opened Grouping

  /** One row of the report: a purchase timestamp, its number of order lines and their total price. */
  datatype DailySummary = DailySummary(timestamp: int, totalOrders: nat, totalSales: real)

  /**
   * The order lines purchased between midnight of `startDay` and midnight of
   * `endDay`, both ends included, in table order. A purchase later on the end
   * day is outside the window.
   */
  function InWindow(data: seq<OrderLine>, startDay: int, endDay: int): (r: seq<OrderLine>)
    ensures |r| <= |data|
    ensures forall i :: 0 <= i < |r| ==> r[i] in data
    ensures forall i :: 0 <= i < |r| ==> Midnight(startDay) <= r[i].purchaseTs <= Midnight(endDay)
    ensures forall i :: 0 <= i < |data| && Midnight(startDay) <= data[i].purchaseTs <= Midnight(endDay) ==>
      data[i] in r
  {
    if data == [] then []
    else
      var x := data[0];
      var rest := InWindow(data[1..], startDay, endDay);
      assert forall i :: 0 < i < |data| ==> data[i] == data[1..][i - 1];
      if Midnight(startDay) <= x.purchaseTs <= Midnight(endDay) then [x] + rest else rest
  }

  /** The filter keeps every row in the window exactly as many times as the table holds it, and no other row. */
  lemma {:induction false} InWindowMultiplicity(data: seq<OrderLine>, startDay: int, endDay: int)
    ensures forall x :: (multiset(InWindow(data, startDay, endDay))[x] ==
      if Midnight(startDay) <= x.purchaseTs <= Midnight(endDay) then multiset(data)[x] else 0)
  {
    if data != [] {
      InWindowMultiplicity(data[1..], startDay, endDay);
      assert data == [data[0]] + data[1..];
    }
  }

  /** Filtering twice with the same window changes nothing. */
  lemma {:induction false} InWindowIdempotent(data: seq<OrderLine>, startDay: int, endDay: int)
    ensures InWindow(InWindow(data, startDay, endDay), startDay, endDay) == InWindow(data, startDay, endDay)
  {
    if data != [] {
      InWindowIdempotent(data[1..], startDay, endDay);
    }
  }

  /** A window whose start day comes after its end day holds nothing. */
  lemma {:induction false} InWindowReversedIsEmpty(data: seq<OrderLine>, startDay: int, endDay: int)
    requires startDay > endDay
    ensures InWindow(data, startDay, endDay) == []
  {
    if data != [] {
      InWindowReversedIsEmpty(data[1..], startDay, endDay);
    }
  }

  function Summarize(g: Group<int, OrderLine>): DailySummary {
    DailySummary(g.key, |g.rows|, SumOf(g.rows, Price))
  }

  function Summaries(gs: seq<Group<int, OrderLine>>): (r: seq<DailySummary>)
    ensures |r| == |gs| && forall i :: 0 <= i < |gs| ==> r[i] == Summarize(gs[i])
  {
    seq(|gs|, i requires 0 <= i < |gs| => Summarize(gs[i]))
  }

  function TimestampOf(d: DailySummary): int { d.timestamp }

  /** `d` counts and totals the order lines of `rows` purchased at its timestamp. */
  ghost predicate SummarizesTimestamp(rows: seq<OrderLine>, d: DailySummary) {
    var group := Select(rows, PurchaseTs, d.timestamp);
    d.totalOrders == |group| && d.totalSales == SumOf(group, Price)
  }

  /**
   * `r` reports on `rows` by timestamp: one row per distinct purchase
   * timestamp and none for a timestamp that does not occur, each with the
   * number of order lines at that timestamp and the sum of their prices.
   */
  ghost predicate ReportsByTimestamp(rows: seq<OrderLine>, r: seq<DailySummary>) {
    && OneRowPerKey(rows, PurchaseTs, r, TimestampOf)
    && forall i :: 0 <= i < |r| ==> SummarizesTimestamp(rows, r[i])
  }

  lemma SummariesReport(rows: seq<OrderLine>, gs: seq<Group<int, OrderLine>>)
    requires IsGrouping(rows, PurchaseTs, gs)
    ensures ReportsByTimestamp(rows, Summaries(gs))
  {
    SummaryHasOneRowPerKey(rows, PurchaseTs, gs, Summaries(gs), TimestampOf);
  }

  /** The daily-orders report over the days from `startDay` to `endDay`. */
  function DailyOrders(data: seq<OrderLine>, startDay: int, endDay: int): (r: seq<DailySummary>)
    ensures ReportsByTimestamp(InWindow(data, startDay, endDay), r)
  {
    var window := InWindow(data, startDay, endDay);
    var gs := GroupBy(window, PurchaseTs);
    SummariesReport(window, gs);
    Summaries(gs)
  }

  function TotalOrders(r: seq<DailySummary>): nat {
    if r == [] then 0 else r[0].totalOrders + TotalOrders(r[1..])
  }

  function TotalSales(r: seq<DailySummary>): real {
    if r == [] then 0.0 else r[0].totalSales + TotalSales(r[1..])
  }

  lemma {:induction false} SummariesAddUp(gs: seq<Group<int, OrderLine>>)
    ensures TotalOrders(Summaries(gs)) == TotalRows(gs)
    ensures TotalSales(Summaries(gs)) == TotalOf(gs, Price)
  {
    if gs != [] {
      SummariesAddUp(gs[1..]);
      assert Summaries(gs)[1..] == Summaries(gs[1..]);
    }
  }

  /**
   * The totals shown above the daily chart: the order counts of the report
   * add up to the number of order lines in the window, and its sales add up
   * to their total price.
   */
  lemma DailyTotalsMatchWindow(data: seq<OrderLine>, startDay: int, endDay: int)
    ensures TotalOrders(DailyOrders(data, startDay, endDay)) == |InWindow(data, startDay, endDay)|
    ensures TotalSales(DailyOrders(data, startDay, endDay)) == SumOf(InWindow(data, startDay, endDay), Price)
  {
    var window := InWindow(data, startDay, endDay);
    var gs := GroupBy(window, PurchaseTs);
    SummariesAddUp(gs);
    GroupingConserves(window, PurchaseTs, gs, Price);
  }
}
