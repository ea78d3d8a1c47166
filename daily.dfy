/**
 * `create_daily_orders_df`: the approved lines resampled by calendar day of
 * approval, one row per day from the first approval day to the last, each with
 * the number of distinct orders and the payment sum of that day; and the two
 * headline metrics summed from it, "Total Pesanan" (total orders) and
 * "Total Revenue".
 */
module DailyOrders {
  import opened Records
  import opened Buckets
  import opened DateFilter

  /** The daily summary table. */
  function DailyOrders(ls: seq<OrderLine>): (r: seq<BucketRow>)
    ensures forall i :: 0 < i < |r| ==> r[i].bucket == r[i - 1].bucket + 1
  {
    Resample(ApprovalDay, ls)
  }

  /** The lines approved on day d, in row order. */
  function ApprovedOn(ls: seq<OrderLine>, d: nat): (r: seq<OrderLine>)
    ensures forall l :: l in r <==> l in ls && l.approvedAt.Some? && DayOf(l.approvedAt.value) == d
  {
    InBucket(ApprovalDay, ls, d)
  }

  /**
   * The table is empty exactly when no line is approved. Otherwise its first
   * row is the day of the earliest approval and its last the day of the latest;
   * both days have orders, and no approval falls outside them.
   */
  lemma DailyDays(ls: seq<OrderLine>)
    ensures DailyOrders(ls) == [] <==> forall l :: l in ls ==> l.approvedAt.None?
    ensures DailyOrders(ls) != [] ==>
              DailyOrders(ls)[0].orders >= 1 && DailyOrders(ls)[|DailyOrders(ls)| - 1].orders >= 1 &&
              forall l :: l in ls && l.approvedAt.Some? ==>
                DailyOrders(ls)[0].bucket <= DayOf(l.approvedAt.value) <= DailyOrders(ls)[|DailyOrders(ls)| - 1].bucket
  {
    ResampleEmpty(ApprovalDay, ls);
    ResampleEnds(ApprovalDay, ls);
  }

  /**
   * Consecutive rows are consecutive days, and every row holds the number of
   * distinct orders and the payment sum of the lines approved that day; a day
   * without approvals has 0 orders and 0 revenue.
   */
  lemma DailyRow(ls: seq<OrderLine>, i: nat)
    requires i < |DailyOrders(ls)|
    ensures DailyOrders(ls)[i].bucket == DailyOrders(ls)[0].bucket + i
    ensures DailyOrders(ls)[i].orders == |OrderIds(ApprovedOn(ls, DailyOrders(ls)[i].bucket))|
    ensures DailyOrders(ls)[i].revenue == Revenue(ApprovedOn(ls, DailyOrders(ls)[i].bucket))
    ensures DailyOrders(ls)[i].orders == 0 <==> ApprovedOn(ls, DailyOrders(ls)[i].bucket) == []
    ensures DailyOrders(ls)[i].orders == 0 ==> DailyOrders(ls)[i].revenue == 0
  {
    var rows := DailyOrders(ls);
    var d := rows[i].bucket;
    ResampleRows(ApprovalDay, ls, i);
    RowOfBucket(ApprovalDay, ls, d);
    var on := ApprovedOn(ls, d);
    if on != [] {
      assert on[0] in on;
      OccupiedRow(ApprovalDay, ls, d, on[0]);
    } else {
      EmptyRow(ApprovalDay, ls, d);
    }
  }

  /**
   * "Total Revenue" is the payment sum of the approved lines. "Total Pesanan"
   * is at least the number of distinct approved orders, and exactly that when
   * no order's lines are approved on two different days.
   */
  lemma DailyTotals(ls: seq<OrderLine>)
    ensures TotalRevenue(DailyOrders(ls)) == Revenue(Bucketed(ApprovalDay, ls))
    ensures TotalOrders(DailyOrders(ls)) >= |OrderIds(Bucketed(ApprovalDay, ls))|
    ensures SingleBucket(ApprovalDay, ls) ==>
              TotalOrders(DailyOrders(ls)) == |OrderIds(Bucketed(ApprovalDay, ls))|
  {
    ResampleRevenue(ApprovalDay, ls);
    ResampleOrders(ApprovalDay, ls);
  }

  /**
   * On the filtered table every line is approved, so "Total Revenue" is its
   * whole payment sum and, when no order in it is approved on two different
   * days, "Total Pesanan" is its number of distinct orders.
   */
  lemma FilteredTotals(ls: seq<OrderLine>, start: nat, end: nat)
    ensures TotalRevenue(DailyOrders(Filter(ls, start, end))) == Revenue(Filter(ls, start, end))
    ensures SingleBucket(ApprovalDay, Filter(ls, start, end)) ==>
              TotalOrders(DailyOrders(Filter(ls, start, end))) == |OrderIds(Filter(ls, start, end))|
  {
    var f := Filter(ls, start, end);
    BucketedAll(ApprovalDay, f);
    DailyTotals(f);
  }

  /** The same two metrics over the whole-day filter. */
  lemma WholeDayTotals(ls: seq<OrderLine>, start: nat, end: nat)
    ensures TotalRevenue(DailyOrders(FilterDays(ls, start, end))) == Revenue(FilterDays(ls, start, end))
    ensures SingleBucket(ApprovalDay, FilterDays(ls, start, end)) ==>
              TotalOrders(DailyOrders(FilterDays(ls, start, end))) == |OrderIds(FilterDays(ls, start, end))|
  {
    var f := FilterDays(ls, start, end);
    BucketedAll(ApprovalDay, f);
    DailyTotals(f);
  }

  /** With whole-day filtering, every row of the daily table is one of the chosen days. */
  lemma DaysWithinRange(ls: seq<OrderLine>, start: nat, end: nat, i: nat)
    requires i < |DailyOrders(FilterDays(ls, start, end))|
    ensures start <= DailyOrders(FilterDays(ls, start, end))[i].bucket <= end
  {
    var f := FilterDays(ls, start, end);
    var early, late := SpanEnds(ApprovalDay, f);
    ResampleRows(ApprovalDay, f, i);
  }
}
