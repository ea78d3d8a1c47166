/**
 * The order-line record the dashboard reads from its merged table, the time
 * arithmetic shared by every bucket, and the two column aggregates every
 * summary table is built from: the payment sum and the set of distinct order ids.
 *
 * Timestamps are whole seconds since 1970-01-01 00:00:00; a calendar date is a
 * day number counted from the same origin.
 */
module Records {

  datatype Option<T> = None | Some(value: T)

  const SecondsPerDay: nat := 86400

  /** One row of the merged order table. */
  datatype OrderLine = OrderLine(
    orderId: string,
    productId: string,
    category: Option<string>,    // product category in English; missing for some products
    customerId: string,          // the customer's unique id
    state: string,               // the customer's state
    purchasedAt: nat,            // purchase timestamp
    approvedAt: Option<nat>,     // approval timestamp; missing when the order was never approved
    payment: int)                // payment value in centavos

  /** The calendar date of a timestamp (the time of day is discarded). */
  function DayOf(t: nat): nat
  {
    t / SecondsPerDay
  }

  /** The timestamp of 00:00:00 on a date; this is what a bare date compares as. */
  function Midnight(day: nat): nat
  {
    day * SecondsPerDay
  }

  lemma DayOfBounds(t: nat)
    ensures Midnight(DayOf(t)) <= t < Midnight(DayOf(t) + 1)
  {
  }

  lemma DayOfMonotone(t1: nat, t2: nat)
    requires t1 <= t2
    ensures DayOf(t1) <= DayOf(t2)
  {
  }

  /** Sum of the payment column. */
  function Revenue(ls: seq<OrderLine>): int
  {
    if |ls| == 0 then 0 else ls[0].payment + Revenue(ls[1..])
  }

  lemma {:induction false} RevenueAppend(a: seq<OrderLine>, b: seq<OrderLine>)
    ensures Revenue(a + b) == Revenue(a) + Revenue(b)
  {
    if |a| == 0 {
      assert a + b == b;
    } else {
      assert (a + b)[1..] == a[1..] + b;
      RevenueAppend(a[1..], b);
    }
  }

  /** The distinct values of the order id column (what `nunique` counts). */
  function OrderIds(ls: seq<OrderLine>): set<string>
  {
    set l | l in ls :: l.orderId
  }

  /** The smallest value of a column, None for an empty column. */
  function Earliest(ks: seq<nat>): (r: Option<nat>)
    ensures r.None? <==> ks == []
    ensures r.Some? ==> r.value in ks && forall k :: k in ks ==> r.value <= k
  {
    if |ks| == 0 then None
    else
      assert ks == [ks[0]] + ks[1..];
      match Earliest(ks[1..])
      case None => Some(ks[0])
      case Some(m) => Some(if ks[0] <= m then ks[0] else m)
  }

  /** The largest value of a column, None for an empty column. */
  function Latest(ks: seq<nat>): (r: Option<nat>)
    ensures r.None? <==> ks == []
    ensures r.Some? ==> r.value in ks && forall k :: k in ks ==> k <= r.value
  {
    if |ks| == 0 then None
    else
      assert ks == [ks[0]] + ks[1..];
      match Latest(ks[1..])
      case None => Some(ks[0])
      case Some(m) => Some(if ks[0] >= m then ks[0] else m)
  }

  /** The approval timestamps present in the table, in row order. */
  function Approvals(ls: seq<OrderLine>): (ts: seq<nat>)
    ensures forall t {:trigger t in ts} :: t in ts <==> exists l :: l in ls && l.approvedAt == Some(t)
  {
    if |ls| == 0 then []
    else
      (match ls[0].approvedAt case None => [] case Some(t) => [t]) + Approvals(ls[1..])
  }

  /** A table without approval timestamps has no approved line. */
  lemma {:induction false} NoApprovals(ls: seq<OrderLine>)
    requires Approvals(ls) == []
    ensures forall l :: l in ls ==> l.approvedAt.None?
  {
    if |ls| > 0 {
      NoApprovals(ls[1..]);
      assert forall l :: l in ls ==> l == ls[0] || l in ls[1..];
    }
  }
}
