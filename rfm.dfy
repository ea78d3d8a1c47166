/**
 * `create_rfm_df`: one row per customer with the recency of their latest
 * approved order (in whole days before the latest approval date of the whole
 * table), their frequency (distinct orders) and their monetary value (the sum
 * of their payments).
 *
 * Both sides of the recency subtraction are calendar dates: the customer's
 * latest approval timestamp is truncated to its date, and the table's latest
 * date is the largest of the truncated approval dates. A customer none of
 * whose orders was approved has a missing (NaT) recency.
 */
module Rfm {
  import opened Records
  import opened Groups
  import opened DateFilter

  /** The lines of one customer, in row order. */
  function LinesOf(ls: seq<OrderLine>, c: string): (r: seq<OrderLine>)
    ensures forall l :: l in r <==> l in ls && l.customerId == c
  {
    if |ls| == 0 then []
    else (if ls[0].customerId == c then [ls[0]] else []) + LinesOf(ls[1..], c)
  }

  /** A customer's line is kept as many times as it occurs; any other line is gone. */
  lemma {:induction false} LinesOfCounts(ls: seq<OrderLine>, c: string, l: OrderLine)
    ensures multiset(LinesOf(ls, c))[l] == if l.customerId == c then multiset(ls)[l] else 0
  {
    if |ls| > 0 {
      var head := if ls[0].customerId == c then [ls[0]] else [];
      LinesOfCounts(ls[1..], c, l);
      assert ls == [ls[0]] + ls[1..];
      assert LinesOf(ls, c) == head + LinesOf(ls[1..], c);
      assert multiset(ls)[l] == multiset([ls[0]])[l] + multiset(ls[1..])[l];
    }
  }

  /** The calendar dates of a column of timestamps (`.dt.date`). */
  function Dates(ts: seq<nat>): (ds: seq<nat>)
    ensures forall d {:trigger d in ds} :: d in ds <==> exists t :: t in ts && DayOf(t) == d
  {
    if |ts| == 0 then []
    else
      assert forall t :: t in ts <==> t == ts[0] || t in ts[1..];
      [DayOf(ts[0])] + Dates(ts[1..])
  }

  /** The latest approval date of the table (line 42); None when no line is approved. */
  function LatestDate(ls: seq<OrderLine>): Option<nat>
  {
    Latest(Dates(Approvals(ls)))
  }

  /** A customer's latest approval timestamp (the `max` aggregate); None when none is approved. */
  function LatestApproval(ls: seq<OrderLine>, c: string): Option<nat>
  {
    Latest(Approvals(LinesOf(ls, c)))
  }

  /** Days from the customer's latest approval date to the table's latest date (line 43). */
  function Recency(ls: seq<OrderLine>, c: string): (r: Option<int>)
    ensures r.Some? ==> r.value >= 0
  {
    match LatestApproval(ls, c)
    case None => None
    case Some(t) =>
      ApprovalNotAfterLatest(ls, c);
      match LatestDate(ls)
      case None => None
      case Some(d) => Some(d - DayOf(t))
  }

  /** One row of the RFM table. */
  datatype RfmRow = RfmRow(customer: string, recency: Option<int>, frequency: nat, monetary: int)

  function RowFor(ls: seq<OrderLine>, c: string): RfmRow
  {
    RfmRow(c, Recency(ls, c), |Members(OrdersPerCustomer, ls, c)|, Revenue(LinesOf(ls, c)))
  }

  /** The rows of the listed customers, in the order listed. */
  function RowsFor(ls: seq<OrderLine>, cs: seq<string>): (t: seq<RfmRow>)
    ensures |t| == |cs|
    ensures forall i :: 0 <= i < |cs| ==> t[i] == RowFor(ls, cs[i])
  {
    if |cs| == 0 then [] else [RowFor(ls, cs[0])] + RowsFor(ls, cs[1..])
  }

  /** `create_rfm_df`: one row per customer, in order of first appearance. */
  function RfmTable(ls: seq<OrderLine>): (t: seq<RfmRow>)
    ensures forall i :: 0 <= i < |t| ==> t[i] == RowFor(ls, t[i].customer)
    ensures forall i, j :: 0 <= i < j < |t| ==> t[i].customer != t[j].customer
  {
    RowsFor(ls, Keys(OrdersPerCustomer, ls))
  }

  /** Some line belongs to customer c: c is a key of the grouping by customer. */
  predicate HasCustomer(ls: seq<OrderLine>, c: string)
  {
    HasKey(OrdersPerCustomer, ls, c)
  }

  /** Some row of the table is customer c's. */
  predicate Listed(t: seq<RfmRow>, c: string)
  {
    exists i :: 0 <= i < |t| && t[i].customer == c
  }

  /** Every customer of the input has a row, and that row is built from their lines. */
  lemma CustomerRow(ls: seq<OrderLine>, c: string) returns (i: nat)
    requires HasCustomer(ls, c)
    ensures i < |RfmTable(ls)| && RfmTable(ls)[i] == RowFor(ls, c)
  {
    var l :| l in ls && l.customerId == c;
    assert KeyOf(OrdersPerCustomer, l) == Some(c);
    assert HasKey(OrdersPerCustomer, ls, c);
    var cs := Keys(OrdersPerCustomer, ls);
    assert c in cs;
    i :| 0 <= i < |cs| && cs[i] == c;
  }

  /** The table has exactly one row for every customer of the input and no other. */
  lemma RfmCustomers(ls: seq<OrderLine>)
    ensures forall i, j :: 0 <= i < j < |RfmTable(ls)| ==> RfmTable(ls)[i].customer != RfmTable(ls)[j].customer
    ensures forall c :: Listed(RfmTable(ls), c) <==> HasCustomer(ls, c)
  {
    var cs := Keys(OrdersPerCustomer, ls);
    var t := RfmTable(ls);
    forall c | HasCustomer(ls, c)
      ensures Listed(t, c)
    {
      var i := CustomerRow(ls, c);
    }
    forall c | Listed(t, c)
      ensures HasCustomer(ls, c)
    {
      var i :| 0 <= i < |t| && t[i].customer == c;
      assert cs[i] in cs;
      var l :| l in ls && KeyOf(OrdersPerCustomer, l) == Some(c);
    }
  }

  /**
   * A customer's frequency is the number of distinct orders among their lines,
   * at least 1, and their monetary value is the sum of their payments.
   */
  lemma RfmRowValues(ls: seq<OrderLine>, i: nat)
    requires i < |RfmTable(ls)|
    ensures RfmTable(ls)[i].frequency == |OrderIds(LinesOf(ls, RfmTable(ls)[i].customer))| >= 1
    ensures RfmTable(ls)[i].monetary == Revenue(LinesOf(ls, RfmTable(ls)[i].customer))
  {
    var cs := Keys(OrdersPerCustomer, ls);
    var c := cs[i];
    assert c in cs;
    MembersNonEmpty(OrdersPerCustomer, ls, c);
    assert Members(OrdersPerCustomer, ls, c) == OrderIds(LinesOf(ls, c));
  }

  /** No approval is on a later date than the table's latest date. */
  lemma LatestDateBounds(ls: seq<OrderLine>, l: OrderLine)
    requires l in ls && l.approvedAt.Some?
    ensures LatestDate(ls).Some? && DayOf(l.approvedAt.value) <= LatestDate(ls).value
  {
    var t := l.approvedAt.value;
    assert t in Approvals(ls);
    assert DayOf(t) in Dates(Approvals(ls));
  }

  /** The table's latest date is the date of some line's approval. */
  lemma LatestDateSource(ls: seq<OrderLine>) returns (l: OrderLine)
    requires LatestDate(ls).Some?
    ensures l in ls && l.approvedAt.Some? && DayOf(l.approvedAt.value) == LatestDate(ls).value
  {
    var d := LatestDate(ls).value;
    assert d in Dates(Approvals(ls));
    var t :| t in Approvals(ls) && DayOf(t) == d;
    l :| l in ls && l.approvedAt == Some(t);
  }

  /** A customer's latest approval is the approval of one of their lines. */
  lemma LatestApprovalSource(ls: seq<OrderLine>, c: string) returns (l: OrderLine)
    requires LatestApproval(ls, c).Some?
    ensures l in ls && l.customerId == c && l.approvedAt == LatestApproval(ls, c)
  {
    var t := LatestApproval(ls, c).value;
    assert t in Approvals(LinesOf(ls, c));
    l :| l in LinesOf(ls, c) && l.approvedAt == Some(t);
  }

  /** A customer's latest approval date is no later than the table's latest date. */
  lemma ApprovalNotAfterLatest(ls: seq<OrderLine>, c: string)
    requires LatestApproval(ls, c).Some?
    ensures LatestDate(ls).Some? && DayOf(LatestApproval(ls, c).value) <= LatestDate(ls).value
  {
    var l := LatestApprovalSource(ls, c);
    LatestDateBounds(ls, l);
  }

  /** No approval of a customer is later than their latest approval. */
  lemma LatestApprovalBounds(ls: seq<OrderLine>, l: OrderLine)
    requires l in ls && l.approvedAt.Some?
    ensures LatestApproval(ls, l.customerId).Some?
    ensures l.approvedAt.value <= LatestApproval(ls, l.customerId).value
  {
    assert l in LinesOf(ls, l.customerId);
    assert l.approvedAt.value in Approvals(LinesOf(ls, l.customerId));
  }

  /**
   * Recency is present exactly when the customer has an approved order, and
   * then it is never negative.
   */
  lemma RecencyNonNegative(ls: seq<OrderLine>, c: string)
    ensures Recency(ls, c).Some? <==> exists l :: l in ls && l.customerId == c && l.approvedAt.Some?
    ensures Recency(ls, c).Some? ==> Recency(ls, c).value >= 0
  {
    if LatestApproval(ls, c).Some? {
      var l := LatestApprovalSource(ls, c);
      LatestDateBounds(ls, l);
    } else {
      NoApprovals(LinesOf(ls, c));
      assert forall l :: l in ls && l.customerId == c ==> l in LinesOf(ls, c);
    }
  }

  /** The customer of a line approved on the table's latest date has recency 0. */
  lemma LatestCustomer(ls: seq<OrderLine>, l: OrderLine)
    requires l in ls && l.approvedAt.Some? && LatestDate(ls) == Some(DayOf(l.approvedAt.value))
    ensures Recency(ls, l.customerId) == Some(0)
  {
    LatestApprovalBounds(ls, l);
    DayOfMonotone(l.approvedAt.value, LatestApproval(ls, l.customerId).value);
    RecencyNonNegative(ls, l.customerId);
  }

  /** When some order was approved, some customer's recency is 0 days. */
  lemma RecencyZero(ls: seq<OrderLine>, a: OrderLine)
    requires a in ls && a.approvedAt.Some?
    ensures exists i :: 0 <= i < |RfmTable(ls)| && RfmTable(ls)[i].recency == Some(0)
  {
    LatestDateBounds(ls, a);
    var l := LatestDateSource(ls);
    LatestCustomer(ls, l);
    var i := CustomerRow(ls, l.customerId);
  }

  /** On a non-empty filtered table, whose rows are all approved, some customer's recency is 0 days. */
  lemma FilteredRecencyZero(ls: seq<OrderLine>, start: nat, end: nat)
    requires Filter(ls, start, end) != []
    ensures exists i :: 0 <= i < |RfmTable(Filter(ls, start, end))| && RfmTable(Filter(ls, start, end))[i].recency == Some(0)
  {
    var f := Filter(ls, start, end);
    assert f[0] in f;
    RecencyZero(f, f[0]);
  }
}
