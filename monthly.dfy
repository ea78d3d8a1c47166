/**
 * `create_monthly_df`: the lines resampled by calendar month of purchase, one
 * row per month from the first purchase month to the last, each labelled
 * `YYYY-MM` with the number of distinct orders and the payment sum of that
 * month; only the last six rows are returned (`iloc[-6:]`).
 *
 * Every line has a purchase timestamp, so every line falls in some month.
 */
module MonthlyOrders {
  import opened Records
  import opened Calendar
  import opened Buckets

  /** One row of the monthly table. */
  datatype MonthRow = MonthRow(month: string, orders: nat, revenue: int)

  /** `iloc[-6:]`: the last six rows, or all of them when there are fewer. */
  function LastSix(rows: seq<BucketRow>): (r: seq<BucketRow>)
    ensures |r| == if |rows| < 6 then |rows| else 6
    ensures forall i :: 0 <= i < |r| ==> r[i] == rows[|rows| - |r| + i]
  {
    if |rows| <= 6 then rows else rows[|rows| - 6..]
  }

  /** `strftime('%Y-%m')` on the month index. */
  function Labelled(rows: seq<BucketRow>): (r: seq<MonthRow>)
    ensures |r| == |rows|
    ensures forall i :: 0 <= i < |rows| ==>
              r[i] == MonthRow(Label(rows[i].bucket), rows[i].orders, rows[i].revenue)
  {
    if |rows| == 0 then []
    else [MonthRow(Label(rows[0].bucket), rows[0].orders, rows[0].revenue)] + Labelled(rows[1..])
  }

  /** The monthly table. */
  function MonthlyOrders(ls: seq<OrderLine>): (r: seq<MonthRow>)
    ensures |r| <= 6
  {
    Labelled(LastSix(Resample(PurchaseMonth, ls)))
  }

  /** The month a line was purchased in. */
  function PurchaseMonthOf(l: OrderLine): nat
  {
    MonthOf(DayOf(l.purchasedAt))
  }

  /** The lines purchased in month m, in row order. */
  function PurchasedIn(ls: seq<OrderLine>, m: nat): (r: seq<OrderLine>)
    ensures forall l :: l in r <==> l in ls && PurchaseMonthOf(l) == m
  {
    InBucket(PurchaseMonth, ls, m)
  }

  /**
   * At most six rows, empty exactly when the input is; otherwise as many rows
   * as the span from the first to the last purchase month has months, up to six.
   */
  lemma MonthlySize(ls: seq<OrderLine>)
    ensures |MonthlyOrders(ls)| <= 6
    ensures MonthlyOrders(ls) == [] <==> ls == []
    ensures ls != [] ==>
              var span := Span(PurchaseMonth, ls).value.last - Span(PurchaseMonth, ls).value.first + 1;
              |MonthlyOrders(ls)| == if span < 6 then span else 6
  {
    SpanNone(PurchaseMonth, ls);
    if ls != [] {
      assert ls[0] in ls;
    }
  }

  /** Row i of the table is the resample's row for month `last - (n - 1) + i`, labelled. */
  lemma MonthlyAt(ls: seq<OrderLine>, i: nat) returns (m: nat)
    requires i < |MonthlyOrders(ls)|
    ensures Span(PurchaseMonth, ls).Some?
    ensures m == Span(PurchaseMonth, ls).value.last - |MonthlyOrders(ls)| + 1 + i
    ensures MonthlyOrders(ls)[i].month == Label(m)
    ensures MonthlyOrders(ls)[i].orders == RowOf(PurchaseMonth, ls, m).orders
    ensures MonthlyOrders(ls)[i].revenue == RowOf(PurchaseMonth, ls, m).revenue
  {
    var all := Resample(PurchaseMonth, ls);
    var last := LastSix(all);
    var j := |all| - |last| + i;
    assert MonthlyOrders(ls)[i] == MonthRow(Label(last[i].bucket), last[i].orders, last[i].revenue);
    assert last[i] == all[j];
    ResampleRows(PurchaseMonth, ls, j);
    m := all[j].bucket;
  }

  /**
   * Row i is labelled with the month `last - (n - 1) + i`, where last is the
   * latest purchase month and n the number of rows: the rows are consecutive
   * ascending months ending at the latest one.
   */
  lemma MonthlyLabel(ls: seq<OrderLine>, i: nat)
    requires i < |MonthlyOrders(ls)|
    ensures Span(PurchaseMonth, ls).Some?
    ensures ParseLabel(MonthlyOrders(ls)[i].month) == Span(PurchaseMonth, ls).value.last - |MonthlyOrders(ls)| + 1 + i
  {
    var m := MonthlyAt(ls, i);
    LabelRoundTrip(m);
  }

  /**
   * Row i holds the number of distinct orders and the payment sum of the lines
   * purchased in its month m, the month `last - (n - 1) + i`.
   */
  lemma MonthlyRow(ls: seq<OrderLine>, i: nat) returns (m: nat)
    requires i < |MonthlyOrders(ls)|
    ensures Span(PurchaseMonth, ls).Some?
    ensures m == Span(PurchaseMonth, ls).value.last - |MonthlyOrders(ls)| + 1 + i
    ensures MonthlyOrders(ls)[i].orders == |OrderIds(PurchasedIn(ls, m))|
    ensures MonthlyOrders(ls)[i].revenue == Revenue(PurchasedIn(ls, m))
  {
    m := MonthlyAt(ls, i);
    assert RowOf(PurchaseMonth, ls, m).orders == |OrderIds(InBucket(PurchaseMonth, ls, m))| &&
           RowOf(PurchaseMonth, ls, m).revenue == Revenue(InBucket(PurchaseMonth, ls, m)) by {
      RowOfBucket(PurchaseMonth, ls, m);
    }
  }

  /** The last row is the month of the latest purchase: it has orders, and no line was purchased later. */
  lemma MonthlyLatest(ls: seq<OrderLine>)
    requires ls != []
    ensures MonthlyOrders(ls) != []
    ensures MonthlyOrders(ls)[|MonthlyOrders(ls)| - 1].orders >= 1
    ensures MonthlyOrders(ls)[|MonthlyOrders(ls)| - 1].month == Label(Span(PurchaseMonth, ls).value.last)
    ensures exists l :: l in ls && Label(PurchaseMonthOf(l)) == MonthlyOrders(ls)[|MonthlyOrders(ls)| - 1].month
    ensures forall l :: l in ls ==> PurchaseMonthOf(l) <= Span(PurchaseMonth, ls).value.last
  {
    MonthlySize(ls);
    var n := |MonthlyOrders(ls)|;
    var m := MonthlyAt(ls, n - 1);
    var early, late := SpanEnds(PurchaseMonth, ls);
    OccupiedRow(PurchaseMonth, ls, m, late);
    forall l | l in ls
      ensures PurchaseMonthOf(l) <= m
    {
      SpanCovers(PurchaseMonth, ls, l);
    }
  }
}
