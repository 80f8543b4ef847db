/**
 * The growth calculator: for each row of a (period, category) sales table,
 * the sales of the previous row of the same category and the percentage
 * change from it, written into the table in place.
 */
module Growth {
  import opened Wrappers

  /**
   * One row of a sales table. `previousSales` and `growth` are the two
   * columns the calculator writes; an absent value stands for a missing
   * (NaN) entry.
   */
  datatype SalesRow = SalesRow(
    year: int,
    category: Option<string>,
    totalSales: real,
    previousSales: Option<real>,
    growth: Option<real>)

  /** The total sales of the last row of `s` in category `c`, if there is one. */
  function LastSales(s: seq<SalesRow>, c: string): Option<real>
  {
    if s == [] then None
    else if s[|s| - 1].category == Some(c) then Some(s[|s| - 1].totalSales)
    else LastSales(s[..|s| - 1], c)
  }

  /**
   * The sales of the row before row `i` within its category, in table
   * order; none for the first row of a category and for a row without a category.
   */
  function PreviousSales(s: seq<SalesRow>, i: nat): Option<real>
    requires i < |s|
  {
    match s[i].category
    case None => None
    case Some(c) => LastSales(s[..i], c)
  }

  /**
   * The percentage change from `previous` to `current`; undefined when
   * there is no previous value or it is zero. A defined growth recovers the
   * current value from the previous one.
   */
  function GrowthPercent(current: real, previous: Option<real>): (g: Option<real>)
    ensures g.Some? <==> previous.Some? && previous.value != 0.0
    ensures g.Some? ==> current == previous.value * (1.0 + g.value / 100.0)
  {
    if previous.None? || previous.value == 0.0 then None
    else
      var p := previous.value;
      var g := (current - p) / p * 100.0;
      assert g / 100.0 == (current - p) / p;
      assert p * ((current - p) / p) == current - p;
      Some(g)
  }

  function Annotated(x: SalesRow, previous: Option<real>): SalesRow
  {
    x.(previousSales := previous, growth := GrowthPercent(x.totalSales, previous))
  }

  /** The table with both growth columns filled in for every row. */
  function WithGrowth(s: seq<SalesRow>): (r: seq<SalesRow>)
    ensures |r| == |s|
  {
    seq(|s|, i requires 0 <= i < |s| => Annotated(s[i], PreviousSales(s, i)))
  }

  /**
   * The last row of a category: absent exactly when no row has that
   * category, and otherwise the sales of a row of that category after which
   * no row has it.
   */
  lemma {:induction false} LastSalesIsLatest(s: seq<SalesRow>, c: string)
    ensures LastSales(s, c).None? <==> forall j :: 0 <= j < |s| ==> s[j].category != Some(c)
    ensures LastSales(s, c).Some? ==> exists j :: (
      && 0 <= j < |s|
      && s[j].category == Some(c)
      && LastSales(s, c).value == s[j].totalSales
      && forall k :: j < k < |s| ==> s[k].category != Some(c))
  {
    if s != [] {
      var n := |s| - 1;
      if s[n].category != Some(c) {
        LastSalesIsLatest(s[..n], c);
        assert forall j :: 0 <= j < n ==> s[..n][j] == s[j];
      }
    }
  }

  /**
   * The previous value of row `i` is the sales of the nearest earlier row of
   * the same category; there is none exactly when the row has no category
   * or no earlier row shares it.
   */
  lemma PreviousIsNearestEarlier(s: seq<SalesRow>, i: nat)
    requires i < |s|
    ensures PreviousSales(s, i).None? <==>
      s[i].category.None? || forall j :: 0 <= j < i ==> s[j].category != s[i].category
    ensures PreviousSales(s, i).Some? ==> exists j :: (
      && 0 <= j < i
      && s[j].category == s[i].category
      && PreviousSales(s, i).value == s[j].totalSales
      && forall k :: j < k < i ==> s[k].category != s[i].category)
  {
    if s[i].category.Some? {
      LastSalesIsLatest(s[..i], s[i].category.value);
      assert forall j :: 0 <= j < i ==> s[..i][j] == s[j];
    }
  }

  /**
   * The growth calculator. When the table has a `total_sales` column it
   * fills in, in place, every row's previous sales and growth; otherwise it
   * leaves the table as it is.
   */
  method CalculateGrowth(rows: array<SalesRow>, hasTotalSales: bool)
    modifies rows
    ensures !hasTotalSales ==> rows[..] == old(rows[..])
    ensures hasTotalSales ==> rows[..] == WithGrowth(old(rows[..]))
  {
    if !hasTotalSales {
      return;
    }
    ghost var orig := rows[..];
    var last: map<string, real> := map[];
    for i := 0 to rows.Length
      invariant forall k :: i <= k < rows.Length ==> rows[k] == orig[k]
      invariant forall k :: 0 <= k < i ==> rows[k] == Annotated(orig[k], PreviousSales(orig, k))
      invariant forall c :: LastSales(orig[..i], c) == if c in last then Some(last[c]) else None
    {
      var x := rows[i];
      var previous: Option<real> := None;
      if x.category.Some? {
        var c := x.category.value;
        if c in last {
          previous := Some(last[c]);
        }
        last := last[c := x.totalSales];
      }
      assert orig[..i + 1][..i] == orig[..i];
      rows[i] := Annotated(x, previous);
    }
    assert rows[..] == WithGrowth(orig);
  }

  /** Row by row, a category with sales 100, 150, 0, 50 grows by nothing, 50%, -100%, nothing. */
  lemma GrowthSample(c: string)
    ensures var s := [SalesRow(2016, Some(c), 100.0, None, None), SalesRow(2017, Some(c), 150.0, None, None),
                      SalesRow(2018, Some(c), 0.0, None, None), SalesRow(2019, Some(c), 50.0, None, None)];
      var r := WithGrowth(s);
      && r[0].growth == None && r[1].growth == Some(50.0) && r[2].growth == Some(-100.0) && r[3].growth == None
      && r[3].previousSales == Some(0.0)
  {
    var s := [SalesRow(2016, Some(c), 100.0, None, None), SalesRow(2017, Some(c), 150.0, None, None),
              SalesRow(2018, Some(c), 0.0, None, None), SalesRow(2019, Some(c), 50.0, None, None)];
    assert s[..1][..0] == [];
    assert s[..2][..1] == s[..1];
    assert s[..3][..2] == s[..2];
  }
}
