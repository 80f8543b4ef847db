/**
 * The two seller-city reports: average delivery delay per (city, state),
 * and late and on-time delivery counts per (city, state), each followed by
 * two independent five-row rankings.
 */
module CityReports {
  import opened Orders
  import opened Grouping
  import opened Ranking

  /** One (city, state) of the delay report: mean delay in days and number of order lines. */
  datatype CityDelivery = CityDelivery(city: string, state: string, avgDelay: real, totalOrders: nat)

  /** One (city, state) of the lateness report. */
  datatype CityLateness = CityLateness(city: string, state: string, lateOrders: nat, onTimeOrders: nat, totalOrders: nat)

  function DeliveryCity(c: CityDelivery): (string, string) { (c.city, c.state) }
  function LatenessCity(c: CityLateness): (string, string) { (c.city, c.state) }
  function AvgDelay(c: CityDelivery): real { c.avgDelay }
  function LateOrders(c: CityLateness): real { c.lateOrders as real }
  function OnTimeOrders(c: CityLateness): real { c.onTimeOrders as real }

  /** The arithmetic mean of the delivery delays of a non-empty set of rows. */
  function MeanDelay(rows: seq<OrderLine>): real
    requires rows != []
  {
    SumOf(rows, Delay) / (|rows| as real)
  }

  /** The order lines delivered late (a delay above zero days). */
  function CountLate(rows: seq<OrderLine>): nat
  {
    if rows == [] then 0 else (if rows[0].deliveryDelayDays > 0 then 1 else 0) + CountLate(rows[1..])
  }

  /** The order lines delivered exactly on the promised day (a delay of zero days). */
  function CountOnTime(rows: seq<OrderLine>): nat
  {
    if rows == [] then 0 else (if rows[0].deliveryDelayDays == 0 then 1 else 0) + CountOnTime(rows[1..])
  }

  /** No order line is both late and on time, so the two counts never exceed the total. */
  lemma {:induction false} LateAndOnTimeWithinTotal(rows: seq<OrderLine>)
    ensures CountLate(rows) + CountOnTime(rows) <= |rows|
    ensures CountLate(rows) + CountOnTime(rows) == |rows| <==> forall i :: 0 <= i < |rows| ==> rows[i].deliveryDelayDays >= 0
  {
    if rows != [] {
      LateAndOnTimeWithinTotal(rows[1..]);
      assert forall i :: 0 < i < |rows| ==> rows[i] == rows[1..][i - 1];
    }
  }

  /** `c`'s mean delay and count are those of the order lines of its seller city in `rows`. */
  ghost predicate DescribesDelivery(rows: seq<OrderLine>, c: CityDelivery) {
    var own := Select(rows, SellerOf, (c.city, c.state));
    && own != []
    && c.totalOrders == |own|
    && c.avgDelay == MeanDelay(own)
  }

  /** `c`'s counts are those of the order lines of its seller city in `rows`. */
  ghost predicate DescribesLateness(rows: seq<OrderLine>, c: CityLateness) {
    var own := Select(rows, SellerOf, (c.city, c.state));
    && c.lateOrders == CountLate(own)
    && c.onTimeOrders == CountOnTime(own)
    && c.totalOrders == |own|
  }

  function Delivery(g: Group<(string, string), OrderLine>): CityDelivery
    requires g.rows != []
  {
    CityDelivery(g.key.0, g.key.1, MeanDelay(g.rows), |g.rows|)
  }

  function Lateness(g: Group<(string, string), OrderLine>): (c: CityLateness)
    ensures c.lateOrders + c.onTimeOrders <= c.totalOrders
  {
    LateAndOnTimeWithinTotal(g.rows);
    CityLateness(g.key.0, g.key.1, CountLate(g.rows), CountOnTime(g.rows), |g.rows|)
  }

  /** The per-city delay table, before ranking: one row per seller (city, state). */
  function CityDeliveryTable(data: seq<OrderLine>): (r: seq<CityDelivery>)
    ensures OneRowPerKey(data, SellerOf, r, DeliveryCity)
    ensures forall i :: 0 <= i < |r| ==> DescribesDelivery(data, r[i])
  {
    var gs := GroupBy(data, SellerOf);
    var r := seq(|gs|, i requires 0 <= i < |gs| => Delivery(gs[i]));
    SummaryHasOneRowPerKey(data, SellerOf, gs, r, DeliveryCity);
    r
  }

  /** The per-city lateness table, before ranking: one row per seller (city, state). */
  function CityLatenessTable(data: seq<OrderLine>): (r: seq<CityLateness>)
    ensures OneRowPerKey(data, SellerOf, r, LatenessCity)
    ensures forall i :: 0 <= i < |r| ==> DescribesLateness(data, r[i])
    ensures forall i :: 0 <= i < |r| ==> r[i].lateOrders + r[i].onTimeOrders <= r[i].totalOrders
  {
    var gs := GroupBy(data, SellerOf);
    var r := seq(|gs|, i requires 0 <= i < |gs| => Lateness(gs[i]));
    SummaryHasOneRowPerKey(data, SellerOf, gs, r, LatenessCity);
    r
  }

  /**
   * The five cities with the longest mean delay and, independently, the five
   * with the shortest.
   */
  function CityDeliveryAnalysis(data: seq<OrderLine>): (r: (seq<CityDelivery>, seq<CityDelivery>))
    ensures IsTopN(CityDeliveryTable(data), r.0, 5, AvgDelay)
    ensures IsBottomN(CityDeliveryTable(data), r.1, 5, AvgDelay)
  {
    var table := CityDeliveryTable(data);
    (NLargest(table, 5, AvgDelay), NSmallest(table, 5, AvgDelay))
  }

  /**
   * The five cities with the most late deliveries and, independently, the
   * five with the most on-time deliveries (a city may be in both lists, or in neither).
   */
  function CityLatenessAnalysis(data: seq<OrderLine>): (r: (seq<CityLateness>, seq<CityLateness>))
    ensures IsTopN(CityLatenessTable(data), r.0, 5, LateOrders)
    ensures IsTopN(CityLatenessTable(data), r.1, 5, OnTimeOrders)
  {
    LatenessLeaders(CityLatenessTable(data))
  }

  /** The two rankings of a lateness table: most late deliveries, and most on-time deliveries. */
  function LatenessLeaders(t: seq<CityLateness>): (r: (seq<CityLateness>, seq<CityLateness>))
    ensures IsTopN(t, r.0, 5, LateOrders)
    ensures IsTopN(t, r.1, 5, OnTimeOrders)
  {
    (NLargest(t, 5, LateOrders), NLargest(t, 5, OnTimeOrders))
  }

  /**
   * In a lateness table, a city with strictly more late deliveries than every
   * other city is in the most-late list, and one with strictly more on-time
   * deliveries than every other city is in the most-on-time list.
   */
  lemma LeadersAreListed(t: seq<CityLateness>, late: nat, onTime: nat)
    requires late < |t| && onTime < |t|
    requires forall j :: 0 <= j < |t| && j != late ==> t[j].lateOrders < t[late].lateOrders
    requires forall j :: 0 <= j < |t| && j != onTime ==> t[j].onTimeOrders < t[onTime].onTimeOrders
    ensures t[late] in LatenessLeaders(t).0
    ensures t[onTime] in LatenessLeaders(t).1
  {
    forall j | 0 <= j < |t| && j != late ensures LateOrders(t[j]) < LateOrders(t[late]) {
    }
    StrictMaximumKept(t, 5, LateOrders, late);
    forall j | 0 <= j < |t| && j != onTime ensures OnTimeOrders(t[j]) < OnTimeOrders(t[onTime]) {
    }
    StrictMaximumKept(t, 5, OnTimeOrders, onTime);
  }
}
