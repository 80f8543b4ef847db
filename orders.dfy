/**
 * The row model of the dashboard: one order line of the merged e-commerce
 * dataset, with its timestamps already parsed into whole seconds.
 */
module Orders {
  import opened Wrappers


  /**
   * One order line. `purchaseTs` counts seconds since 1970-01-01 00:00:00
   * (the timestamps are naive, without a time zone). `category` is absent
   * for products without a category name. `deliveryDelayDays` is positive
   * for a late delivery, zero for an on-time one and negative for an early one.
   */
  datatype OrderLine = OrderLine(
    orderId: string,
    customerId: string,
    sellerCity: string,
    sellerState: string,
    category: Option<string>,
    price: real,
    purchaseTs: int,
    deliveryDelayDays: int,
    year: int,
    month: int)

  // Field selectors, named so that every report groups and sums by the same function value.
  function Price(x: OrderLine): real { x.price }
  function PurchaseTs(x: OrderLine): int { x.purchaseTs }
  function Delay(x: OrderLine): real { x.deliveryDelayDays as real }
  function CustomerOf(x: OrderLine): string { x.customerId }
  function SellerOf(x: OrderLine): (string, string) { (x.sellerCity, x.sellerState) }
  function YearMonthOf(x: OrderLine): (int, int) { (x.year, x.month) }
  function YearCategoryOf(x: OrderLine): (int, Option<string>) { (x.year, x.category) }
  function CategoryOf(x: OrderLine): Option<string> { x.category }

  /** The instant 00:00:00 of a calendar day, days counted from 1970-01-01. */
  function Midnight(day: int): (t: int)
    ensures t % 86400 == 0
    ensures t / 86400 == day
  {
    day * 86400
  }

  /** The whole number of days in a span of seconds, rounded down (the `days` of a time difference). */
  function WholeDays(seconds: int): (d: int)
    ensures d * 86400 <= seconds < (d + 1) * 86400
  {
    seconds / 86400
  }

  /** The calendar year (proleptic Gregorian) of a day counted from 1970-01-01. */
  function CivilYear(day: int): int
  {
    var z := day + 719468;
    var era := z / 146097;
    var doe := z % 146097;
    var yoe := (doe - doe / 1460 + doe / 36524 - doe / 146096) / 365;
    var doy := doe - (365 * yoe + yoe / 4 - yoe / 100);
    var mp := (5 * doy + 2) / 153;
    var y := yoe + era * 400;
    if mp >= 10 then y + 1 else y
  }

  /** The calendar year of an instant. */
  function YearOf(ts: int): int
  {
    CivilYear(WholeDays(ts))
  }

  // Fixed points of the calendar conversion around the years the dataset covers.
  // The solver needs each step of the integer arithmetic spelled out.

  lemma YearOfNewYear2016()
    ensures YearOf(1451606400) == 2016  // 2016-01-01 00:00:00
    ensures YearOf(1451606399) == 2015  // 2015-12-31 23:59:59
  {
    assert WholeDays(1451606400) == 16801;
    assert 736269 / 146097 == 5;
    assert 736269 % 146097 == 5784;
    assert (5784 - 5784 / 1460 + 5784 / 36524 - 5784 / 146096) / 365 == 15;
    assert 5784 - (365 * 15 + 15 / 4 - 15 / 100) == 306;
    assert (5 * 306 + 2) / 153 == 10;
    assert WholeDays(1451606399) == 16800;
    assert 736268 / 146097 == 5;
    assert 736268 % 146097 == 5783;
    assert (5783 - 5783 / 1460 + 5783 / 36524 - 5783 / 146096) / 365 == 15;
    assert 5783 - (365 * 15 + 15 / 4 - 15 / 100) == 305;
    assert (5 * 305 + 2) / 153 == 9;
  }

  lemma YearOfReferenceDay()
    ensures YearOf(1535932800) == 2018  // 2018-09-03 00:00:00
  {
    assert WholeDays(1535932800) == 17777;
    assert 737245 / 146097 == 5;
    assert 737245 % 146097 == 6760;
    assert (6760 - 6760 / 1460 + 6760 / 36524 - 6760 / 146096) / 365 == 18;
    assert 6760 - (365 * 18 + 18 / 4 - 18 / 100) == 186;
    assert (5 * 186 + 2) / 153 == 6;
  }
}
