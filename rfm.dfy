/**
 * Recency-frequency-monetary segmentation: one row per customer, measured
 * against a fixed reference day.
 */
module Rfm {
  import opened Orders
  import opened Grouping
  import opened Ranking

  /** 2018-09-03 00:00:00, the reference instant the dashboard measures recency against. */
  const ReferenceInstant: int := 1535932800

  /**
   * One customer's segment: whole days between the reference instant and the
   * customer's latest purchase, number of order lines, and their total price.
   */
  datatype RfmRow = RfmRow(customerId: string, recency: int, frequency: nat, monetary: real)

  /** The latest purchase instant among `rows`. */
  function LatestPurchase(rows: seq<OrderLine>): (t: int)
    requires rows != []
    ensures forall i :: 0 <= i < |rows| ==> rows[i].purchaseTs <= t
    ensures exists i :: 0 <= i < |rows| && rows[i].purchaseTs == t
  {
    if |rows| == 1 then rows[0].purchaseTs
    else
      var rest := LatestPurchase(rows[1..]);
      assert forall i :: 0 < i < |rows| ==> rows[i] == rows[1..][i - 1];
      if rows[0].purchaseTs >= rest then rows[0].purchaseTs else rest
  }

  function Segment(g: Group<string, OrderLine>, reference: int): RfmRow
    requires g.rows != []
  {
    RfmRow(g.key, WholeDays(reference - LatestPurchase(g.rows)), |g.rows|, SumOf(g.rows, Price))
  }

  function CustomerIdOf(r: RfmRow): string { r.customerId }

  /** `row` is the segment of its customer in `rows`. */
  ghost predicate SegmentOf(rows: seq<OrderLine>, reference: int, row: RfmRow) {
    var own := Select(rows, CustomerOf, row.customerId);
    && own != []
    && row.frequency == |own|
    && row.monetary == SumOf(own, Price)
    && row.recency == WholeDays(reference - LatestPurchase(own))
  }

  /**
   * `r` segments the customers of `rows` against `reference`: one row per
   * customer present and none for an absent one, with that customer's
   * number of order lines, total price and whole days since their latest
   * purchase.
   */
  ghost predicate SegmentsCustomers(rows: seq<OrderLine>, reference: int, r: seq<RfmRow>) {
    && OneRowPerKey(rows, CustomerOf, r, CustomerIdOf)
    && forall i :: 0 <= i < |r| ==> SegmentOf(rows, reference, r[i])
  }

  /** The segmentation of every customer against the instant `reference`. */
  function RfmAt(data: seq<OrderLine>, reference: int): (r: seq<RfmRow>)
    ensures SegmentsCustomers(data, reference, r)
  {
    var gs := GroupBy(data, CustomerOf);
    var r := Segments(gs, reference);
    SummaryHasOneRowPerKey(data, CustomerOf, gs, r, CustomerIdOf);
    forall i | 0 <= i < |gs| ensures SegmentOf(data, reference, r[i]) {
      GroupSegment(data, reference, gs[i]);
    }
    r
  }

  function Segments(gs: seq<Group<string, OrderLine>>, reference: int): (r: seq<RfmRow>)
    requires forall i :: 0 <= i < |gs| ==> gs[i].rows != []
    ensures |r| == |gs| && forall i :: 0 <= i < |gs| ==> r[i] == Segment(gs[i], reference)
  {
    seq(|gs|, i requires 0 <= i < |gs| => Segment(gs[i], reference))
  }

  lemma GroupSegment(data: seq<OrderLine>, reference: int, g: Group<string, OrderLine>)
    requires g.rows != [] && g.rows == Select(data, CustomerOf, g.key)
    ensures SegmentOf(data, reference, Segment(g, reference))
  {
  }

  /** The dashboard's segmentation, against 2018-09-03. */
  function CreateRfm(data: seq<OrderLine>): (r: seq<RfmRow>)
    ensures SegmentsCustomers(data, ReferenceInstant, r)
  {
    RfmAt(data, ReferenceInstant)
  }

  function Monetary(r: RfmRow): real { r.monetary }

  /** The five customers who spent the most (the dashboard's top-spender table). */
  function TopCustomers(rfm: seq<RfmRow>): (top: seq<RfmRow>)
    ensures IsTopN(rfm, top, 5, Monetary)
  {
    NLargest(rfm, 5, Monetary)
  }

  /**
   * Recency is never negative when no purchase comes after the reference
   * instant; otherwise it is kept negative, not clamped.
   */
  lemma RecencyNonNegative(data: seq<OrderLine>, reference: int)
    requires forall n :: 0 <= n < |data| ==> data[n].purchaseTs <= reference
    ensures forall i :: 0 <= i < |RfmAt(data, reference)| ==> RfmAt(data, reference)[i].recency >= 0
  {
    var r := RfmAt(data, reference);
    forall i | 0 <= i < |r| ensures r[i].recency >= 0 {
      assert SegmentOf(data, reference, r[i]);
      var own := Select(data, CustomerOf, r[i].customerId);
      var k :| 0 <= k < |own| && own[k].purchaseTs == LatestPurchase(own);
      assert own[k] in data;
    }
  }

  /** Recency counts whole days: a purchase on 2018-08-20 is 14 days old, or 13 when made at 10:00. */
  lemma RecencySamples(c: OrderLine)
    ensures CreateRfm([c.(purchaseTs := 1534723200)]) == [RfmRow(c.customerId, 14, 1, c.price)]
    ensures CreateRfm([c.(purchaseTs := 1534759200)]) == [RfmRow(c.customerId, 13, 1, c.price)]
  {
    SingleCustomer(c.(purchaseTs := 1534723200));
    assert WholeDays(ReferenceInstant - 1534723200) == 14;
    SingleCustomer(c.(purchaseTs := 1534759200));
    assert WholeDays(ReferenceInstant - 1534759200) == 13;
  }

  /** A purchase an hour after the reference instant gets recency -1: it is kept, not clamped to 0. */
  lemma RecencyAfterReference(c: OrderLine)
    ensures CreateRfm([c.(purchaseTs := ReferenceInstant + 3600)]) == [RfmRow(c.customerId, -1, 1, c.price)]
  {
    SingleCustomer(c.(purchaseTs := ReferenceInstant + 3600));
    assert WholeDays(-3600) == -1;
  }

  lemma SingleCustomer(x: OrderLine)
    ensures CreateRfm([x]) == [RfmRow(x.customerId, WholeDays(ReferenceInstant - x.purchaseTs), 1, x.price)]
  {
    var r := CreateRfm([x]);
    SingleKey([x], CustomerOf, r, CustomerIdOf, x.customerId);
    assert SegmentOf([x], ReferenceInstant, r[0]);
    var own := Select([x], CustomerOf, x.customerId);
    assert own == [x];
    assert LatestPurchase(own) == x.purchaseTs;
    assert SumOf(own, Price) == x.price;
  }
}
