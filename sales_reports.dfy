/**
 * The sales reports: sales per (year, month), sales per (year, category)
 * with the ten best categories of each year, and the five best and worst
 * categories over the whole period.
 */
module SalesReports {
  import opened Wrappers
  import opened Orders
  import opened Grouping
  import opened Ranking

  datatype MonthlySales = MonthlySales(year: int, month: int, totalSales: real)
  datatype CategorySales = CategorySales(year: int, category: string, totalSales: real)
  datatype ProductSales = ProductSales(category: string, totalSales: real)
  datatype ProductOrders = ProductOrders(category: string, totalOrders: nat)

  function MonthKey(m: MonthlySales): (int, int) { (m.year, m.month) }
  function CategoryKey(c: CategorySales): (int, string) { (c.year, c.category) }
  function SalesYear(c: CategorySales): int { c.year }
  function CategorySalesTotal(c: CategorySales): real { c.totalSales }
  function ProductSalesKey(p: ProductSales): string { p.category }
  function ProductSalesTotal(p: ProductSales): real { p.totalSales }
  function ProductOrdersKey(p: ProductOrders): string { p.category }
  function ProductOrdersTotal(p: ProductOrders): real { p.totalOrders as real }

  /** The category name of an order line that has one. */
  function CategoryName(x: OrderLine): string { x.category.GetOr("") }
  function YearCategoryName(x: OrderLine): (int, string) { (x.year, CategoryName(x)) }

  // ---------------------------------------------------------------- monthly sales

  /** The sales of every (year, month): one row per month present, with the total price of its order lines. */
  function MonthlySalesReport(data: seq<OrderLine>): (r: seq<MonthlySales>)
    ensures OneRowPerKey(data, YearMonthOf, r, MonthKey)
    ensures forall i :: 0 <= i < |r| ==> r[i].totalSales == SumOf(Select(data, YearMonthOf, MonthKey(r[i])), Price)
  {
    var gs := GroupBy(data, YearMonthOf);
    var r := seq(|gs|, i requires 0 <= i < |gs| => MonthlySales(gs[i].key.0, gs[i].key.1, SumOf(gs[i].rows, Price)));
    SummaryHasOneRowPerKey(data, YearMonthOf, gs, r, MonthKey);
    r
  }

  // ---------------------------------------------------------------- categories

  /**
   * The order lines that have a category, each as often as in the table:
   * grouping by category leaves out the lines whose category is missing.
   */
  function Categorized(data: seq<OrderLine>): (r: seq<OrderLine>)
    ensures forall i :: 0 <= i < |r| ==> r[i].category.Some? && r[i] in data
    ensures forall i :: 0 <= i < |data| && data[i].category.Some? ==> data[i] in r
  {
    if data == [] then []
    else
      var rest := Categorized(data[1..]);
      assert forall i :: 0 < i < |data| ==> data[i] == data[1..][i - 1];
      if data[0].category.Some? then [data[0]] + rest else rest
  }

  /** Every row with a category is kept exactly as many times as the table holds it, and no other row. */
  lemma {:induction false} CategorizedMultiplicity(data: seq<OrderLine>)
    ensures forall x :: multiset(Categorized(data))[x] == (if x.category.Some? then multiset(data)[x] else 0)
  {
    if data != [] {
      CategorizedMultiplicity(data[1..]);
      assert data == [data[0]] + data[1..];
    }
  }

  /**
   * The sales of every (year, category): one row per pair present among the
   * order lines that have a category, with the total price of its lines.
   */
  function CategoryTotals(data: seq<OrderLine>): (r: seq<CategorySales>)
    ensures OneRowPerKey(Categorized(data), YearCategoryName, r, CategoryKey)
    ensures forall i :: 0 <= i < |r| ==>
      r[i].totalSales == SumOf(Select(Categorized(data), YearCategoryName, CategoryKey(r[i])), Price)
  {
    var rows := Categorized(data);
    var gs := GroupBy(rows, YearCategoryName);
    var r := seq(|gs|, i requires 0 <= i < |gs| => CategorySales(gs[i].key.0, gs[i].key.1, SumOf(gs[i].rows, Price)));
    SummaryHasOneRowPerKey(rows, YearCategoryName, gs, r, CategoryKey);
    r
  }

  /**
   * For every year separately, the `n` (year, category) rows with the
   * largest sales.
   */
  function TopPerYear(cs: seq<CategorySales>, n: nat): (r: seq<CategorySales>)
    ensures forall y :: IsTopN(Select(cs, SalesYear, y), Select(r, SalesYear, y), n, CategorySalesTotal)
    ensures forall i :: 0 <= i < |r| ==> r[i] in cs
  {
    TopPerGroup(cs, SalesYear, n, CategorySalesTotal)
  }

  /**
   * The category-trend report: an error signal (no table) when the dataset
   * has no category column; otherwise at most ten (year, category) rows per
   * year, each drawn from the (year, category) sales table and each selling
   * at least as much as every row of its year left out.
   */
  function CategoryTrends(data: seq<OrderLine>, hasCategoryColumn: bool): (r: Option<seq<CategorySales>>)
    ensures r.None? <==> !hasCategoryColumn
    ensures r.Some? ==> forall i :: 0 <= i < |r.value| ==> r.value[i] in CategoryTotals(data)
    ensures r.Some? ==> forall y ::
      IsTopN(Select(CategoryTotals(data), SalesYear, y), Select(r.value, SalesYear, y), 10, CategorySalesTotal)
  {
    if !hasCategoryColumn then None
    else Some(TopPerYear(CategoryTotals(data), 10))
  }

  // ---------------------------------------------------------------- top ten per purchase year

  /** The table after its `year` column is overwritten with the year of each purchase timestamp. */
  function WithPurchaseYear(s: seq<OrderLine>): (r: seq<OrderLine>)
    ensures |r| == |s|
  {
    seq(|s|, i requires 0 <= i < |s| => s[i].(year := YearOf(s[i].purchaseTs)))
  }

  /** Deriving the year a second time changes nothing. */
  lemma PurchaseYearIdempotent(s: seq<OrderLine>)
    ensures WithPurchaseYear(WithPurchaseYear(s)) == WithPurchaseYear(s)
  {
  }

  /** Overwrites, in place, each order line's `year` with the year of its purchase; nothing else changes. */
  method SetPurchaseYears(data: array<OrderLine>)
    modifies data
    ensures forall i :: 0 <= i < data.Length ==> data[i] == old(data[i]).(year := YearOf(old(data[i]).purchaseTs))
    ensures data[..] == WithPurchaseYear(old(data[..]))
  {
    for i := 0 to data.Length
      invariant forall k :: 0 <= k < i ==> data[k] == old(data[k]).(year := YearOf(old(data[k]).purchaseTs))
      invariant forall k :: i <= k < data.Length ==> data[k] == old(data[k])
    {
      data[i] := data[i].(year := YearOf(data[i].purchaseTs));
    }
  }

  /**
   * The top-ten-per-year report. It first overwrites, in the caller's
   * table, each order line's `year` with the year of its purchase; then,
   * when the table has a category column, it selects the ten best
   * categories of each such year. Without a category column the grouping
   * fails after the overwrite, which is modelled as no result.
   */
  method CreateTop10SalesPerYear(data: array<OrderLine>, hasCategoryColumn: bool) returns (r: Option<seq<CategorySales>>)
    modifies data
    ensures data[..] == WithPurchaseYear(old(data[..]))
    ensures r.None? <==> !hasCategoryColumn
    ensures r.Some? ==> r.value == TopPerYear(CategoryTotals(data[..]), 10)
  {
    SetPurchaseYears(data);
    if hasCategoryColumn {
      var rows := data[..];
      r := Some(TopPerYear(CategoryTotals(rows), 10));
    } else {
      r := None;
    }
  }

  // ---------------------------------------------------------------- best and worst categories

  /** Total sales per category over the whole period: one row per category present. */
  function ProductSalesTable(data: seq<OrderLine>): (r: seq<ProductSales>)
    ensures OneRowPerKey(Categorized(data), CategoryName, r, ProductSalesKey)
    ensures forall i :: 0 <= i < |r| ==>
      r[i].totalSales == SumOf(Select(Categorized(data), CategoryName, r[i].category), Price)
  {
    var rows := Categorized(data);
    var gs := GroupBy(rows, CategoryName);
    var r := seq(|gs|, i requires 0 <= i < |gs| => ProductSales(gs[i].key, SumOf(gs[i].rows, Price)));
    SummaryHasOneRowPerKey(rows, CategoryName, gs, r, ProductSalesKey);
    r
  }

  /** Number of order lines per category over the whole period: one row per category present. */
  function ProductOrdersTable(data: seq<OrderLine>): (r: seq<ProductOrders>)
    ensures OneRowPerKey(Categorized(data), CategoryName, r, ProductOrdersKey)
    ensures forall i :: 0 <= i < |r| ==>
      r[i].totalOrders == |Select(Categorized(data), CategoryName, r[i].category)|
  {
    var rows := Categorized(data);
    var gs := GroupBy(rows, CategoryName);
    var r := seq(|gs|, i requires 0 <= i < |gs| => ProductOrders(gs[i].key, |gs[i].rows|));
    SummaryHasOneRowPerKey(rows, CategoryName, gs, r, ProductOrdersKey);
    r
  }

  /** The five best- and five worst-selling categories by total sales. */
  function ProductSalesRanking(data: seq<OrderLine>): (r: (seq<ProductSales>, seq<ProductSales>))
    ensures IsTopN(ProductSalesTable(data), r.0, 5, ProductSalesTotal)
    ensures IsBottomN(ProductSalesTable(data), r.1, 5, ProductSalesTotal)
  {
    var table := ProductSalesTable(data);
    (NLargest(table, 5, ProductSalesTotal), NSmallest(table, 5, ProductSalesTotal))
  }

  /** The five most- and five least-ordered categories by number of order lines. */
  function ProductOrdersRanking(data: seq<OrderLine>): (r: (seq<ProductOrders>, seq<ProductOrders>))
    ensures IsTopN(ProductOrdersTable(data), r.0, 5, ProductOrdersTotal)
    ensures IsBottomN(ProductOrdersTable(data), r.1, 5, ProductOrdersTotal)
  {
    var table := ProductOrdersTable(data);
    (NLargest(table, 5, ProductOrdersTotal), NSmallest(table, 5, ProductOrdersTotal))
  }
}
