/**
 * Time-bucketed aggregation, the `resample(...).agg({'order_id': 'nunique',
 * 'payment_value': 'sum'})` step shared by the daily and the monthly summaries.
 *
 * A resample emits one row for every bucket from the first occupied bucket to
 * the last one, in order, so buckets with no lines in between appear with
 * zero orders and zero revenue. Lines whose timestamp is missing fall in no bucket.
 */
module Buckets {
  import opened Records
  import opened Calendar

  /** Calendar day of approval (the daily summary) or calendar month of purchase (the monthly one). */
  datatype Bucketing = ApprovalDay | PurchaseMonth

  /** The bucket a line falls in: a day number or a month index; None when the timestamp is missing. */
  function BucketOf(b: Bucketing, l: OrderLine): Option<nat>
  {
    match b
    case ApprovalDay =>
      (match l.approvedAt
       case None => None
       case Some(t) => Some(DayOf(t)))
    case PurchaseMonth => Some(MonthOf(DayOf(l.purchasedAt)))
  }

  predicate InSpan(b: Bucketing, l: OrderLine, lo: nat, hi: nat)
  {
    BucketOf(b, l).Some? && lo <= BucketOf(b, l).value < hi
  }

  /** The lines that fall in some bucket, in row order. */
  function Bucketed(b: Bucketing, ls: seq<OrderLine>): (r: seq<OrderLine>)
    ensures forall l {:trigger l in r} :: l in r <==> l in ls && BucketOf(b, l).Some?
  {
    if |ls| == 0 then []
    else (if BucketOf(b, ls[0]).Some? then [ls[0]] else []) + Bucketed(b, ls[1..])
  }

  /** A line with a bucket is kept as many times as it occurs; any other line is gone. */
  lemma {:induction false} BucketedCounts(b: Bucketing, ls: seq<OrderLine>, l: OrderLine)
    ensures multiset(Bucketed(b, ls))[l] == if BucketOf(b, l).Some? then multiset(ls)[l] else 0
  {
    if |ls| > 0 {
      var head := if BucketOf(b, ls[0]).Some? then [ls[0]] else [];
      BucketedCounts(b, ls[1..], l);
      assert ls == [ls[0]] + ls[1..];
      assert Bucketed(b, ls) == head + Bucketed(b, ls[1..]);
      assert multiset(ls)[l] == multiset([ls[0]])[l] + multiset(ls[1..])[l];
    }
  }

  /** Payment sum of the lines whose bucket lies in [lo, hi). */
  function SpanRevenue(b: Bucketing, ls: seq<OrderLine>, lo: nat, hi: nat): int
  {
    if |ls| == 0 then 0
    else (if InSpan(b, ls[0], lo, hi) then ls[0].payment else 0) + SpanRevenue(b, ls[1..], lo, hi)
  }

  /** Distinct order ids of the lines whose bucket lies in [lo, hi). */
  function SpanOrderIds(b: Bucketing, ls: seq<OrderLine>, lo: nat, hi: nat): set<string>
  {
    set l | l in ls && InSpan(b, l, lo, hi) :: l.orderId
  }

  /** A span without orders has no revenue either. */
  lemma {:induction false} NoOrdersNoRevenue(b: Bucketing, ls: seq<OrderLine>, lo: nat, hi: nat)
    requires forall l :: l in ls ==> !InSpan(b, l, lo, hi)
    ensures SpanRevenue(b, ls, lo, hi) == 0
  {
    if |ls| > 0 {
      assert ls[0] in ls;
      assert forall l :: l in ls[1..] ==> l in ls;
      NoOrdersNoRevenue(b, ls[1..], lo, hi);
    }
  }

  /** An empty span holds no lines. */
  lemma {:induction false} EmptySpan(b: Bucketing, ls: seq<OrderLine>, k: nat)
    ensures SpanRevenue(b, ls, k, k) == 0 && SpanOrderIds(b, ls, k, k) == {}
  {
    NoOrdersNoRevenue(b, ls, k, k);
  }

  /** One output row: the bucket, its number of distinct order ids and its payment sum. */
  datatype BucketRow = BucketRow(bucket: nat, orders: nat, revenue: int)

  /** The aggregate of one bucket over the lines that fall in it. */
  function RowOf(b: Bucketing, ls: seq<OrderLine>, k: nat): BucketRow
  {
    BucketRow(k, |SpanOrderIds(b, ls, k, k + 1)|, SpanRevenue(b, ls, k, k + 1))
  }

  /** The rows of the n consecutive buckets starting at lo. */
  function RowsFrom(b: Bucketing, ls: seq<OrderLine>, lo: nat, n: nat): (rows: seq<BucketRow>)
    ensures |rows| == n
    ensures forall i :: 0 <= i < n ==> rows[i].bucket == lo + i
    decreases n
  {
    if n == 0 then [] else [RowOf(b, ls, lo)] + RowsFrom(b, ls, lo + 1, n - 1)
  }

  /** Row i of a run of consecutive buckets aggregates bucket lo + i. */
  lemma {:induction false} RowsFromAt(b: Bucketing, ls: seq<OrderLine>, lo: nat, n: nat, i: nat)
    requires i < n
    ensures RowsFrom(b, ls, lo, n)[i] == RowOf(b, ls, lo + i)
    decreases n
  {
    if i > 0 {
      RowsFromAt(b, ls, lo + 1, n - 1, i - 1);
    }
  }

  /** Each row of a run of consecutive buckets is the aggregate of its own bucket. */
  lemma RowsFromRow(b: Bucketing, ls: seq<OrderLine>, lo: nat, n: nat, i: nat)
    requires i < n
    ensures RowsFrom(b, ls, lo, n)[i] == RowOf(b, ls, RowsFrom(b, ls, lo, n)[i].bucket)
  {
    RowsFromAt(b, ls, lo, n, i);
  }

  /** An occupied bucket has at least one order. */
  lemma OccupiedRow(b: Bucketing, ls: seq<OrderLine>, k: nat, l: OrderLine)
    requires l in ls && BucketOf(b, l) == Some(k)
    ensures RowOf(b, ls, k).orders >= 1
  {
    assert l.orderId in SpanOrderIds(b, ls, k, k + 1);
  }

  /** A bucket with an order has a line in it. */
  lemma OrdersHaveLines(b: Bucketing, ls: seq<OrderLine>, k: nat) returns (l: OrderLine)
    requires RowOf(b, ls, k).orders >= 1
    ensures l in ls && BucketOf(b, l) == Some(k)
  {
    var o :| o in SpanOrderIds(b, ls, k, k + 1);
    l :| l in ls && InSpan(b, l, k, k + 1) && l.orderId == o;
  }

  /** A bucket without orders has no revenue. */
  lemma EmptyRow(b: Bucketing, ls: seq<OrderLine>, k: nat)
    requires RowOf(b, ls, k).orders == 0
    ensures RowOf(b, ls, k).revenue == 0
  {
    var ids := SpanOrderIds(b, ls, k, k + 1);
    forall l | l in ls
      ensures !InSpan(b, l, k, k + 1)
    {
      assert InSpan(b, l, k, k + 1) ==> l.orderId in ids;
    }
    NoOrdersNoRevenue(b, ls, k, k + 1);
  }

  /** The lines that fall in bucket k, in row order. */
  function InBucket(b: Bucketing, ls: seq<OrderLine>, k: nat): (r: seq<OrderLine>)
    ensures forall l :: l in r <==> l in ls && BucketOf(b, l) == Some(k)
  {
    if |ls| == 0 then []
    else (if BucketOf(b, ls[0]) == Some(k) then [ls[0]] else []) + InBucket(b, ls[1..], k)
  }

  /** A line of bucket k is kept as many times as it occurs; any other line is gone. */
  lemma {:induction false} InBucketCounts(b: Bucketing, ls: seq<OrderLine>, k: nat, l: OrderLine)
    ensures multiset(InBucket(b, ls, k))[l] == if BucketOf(b, l) == Some(k) then multiset(ls)[l] else 0
  {
    if |ls| > 0 {
      var head := if BucketOf(b, ls[0]) == Some(k) then [ls[0]] else [];
      InBucketCounts(b, ls[1..], k, l);
      assert ls == [ls[0]] + ls[1..];
      assert InBucket(b, ls, k) == head + InBucket(b, ls[1..], k);
      assert multiset(ls)[l] == multiset([ls[0]])[l] + multiset(ls[1..])[l];
    }
  }

  /** A bucket's row counts the distinct orders and adds up the payments of exactly the lines in that bucket. */
  lemma {:induction false} RowOfBucket(b: Bucketing, ls: seq<OrderLine>, k: nat)
    ensures RowOf(b, ls, k).orders == |OrderIds(InBucket(b, ls, k))|
    ensures RowOf(b, ls, k).revenue == Revenue(InBucket(b, ls, k))
  {
    assert SpanOrderIds(b, ls, k, k + 1) == OrderIds(InBucket(b, ls, k));
    BucketRevenue(b, ls, k);
  }

  lemma {:induction false} BucketRevenue(b: Bucketing, ls: seq<OrderLine>, k: nat)
    ensures SpanRevenue(b, ls, k, k + 1) == Revenue(InBucket(b, ls, k))
  {
    if |ls| > 0 {
      BucketRevenue(b, ls[1..], k);
      var rest := InBucket(b, ls[1..], k);
      if BucketOf(b, ls[0]) == Some(k) {
        var all := [ls[0]] + rest;
        assert InBucket(b, ls, k) == all;
        assert all[0] == ls[0] && all[1..] == rest;
      } else {
        assert InBucket(b, ls, k) == rest;
      }
    }
  }

  /** When every line has a bucket, the bucketed lines are all the lines. */
  lemma {:induction false} BucketedAll(b: Bucketing, ls: seq<OrderLine>)
    requires forall l :: l in ls ==> BucketOf(b, l).Some?
    ensures Bucketed(b, ls) == ls
  {
    if |ls| > 0 {
      assert ls[0] in ls;
      assert forall l :: l in ls[1..] ==> l in ls;
      BucketedAll(b, ls[1..]);
      assert ls == [ls[0]] + ls[1..];
    }
  }

  /** The earliest and the latest occupied bucket. */
  datatype Range = Range(first: nat, last: nat)

  /** The range a resample covers, None when no line has a bucket (SpanNone, SpanEnds, SpanCovers). */
  function Span(b: Bucketing, ls: seq<OrderLine>): (s: Option<Range>)
    ensures s.Some? ==> s.value.first <= s.value.last
  {
    if |ls| == 0 then None
    else
      var rest := Span(b, ls[1..]);
      match BucketOf(b, ls[0])
      case None => rest
      case Some(k) =>
        if rest.None? then Some(Range(k, k))
        else Some(Range(if k < rest.value.first then k else rest.value.first,
                        if k > rest.value.last then k else rest.value.last))
  }

  /** There is no range exactly when no line has a bucket. */
  lemma {:induction false} SpanNone(b: Bucketing, ls: seq<OrderLine>)
    ensures Span(b, ls).None? <==> forall l :: l in ls ==> BucketOf(b, l).None?
  {
    if |ls| > 0 {
      assert forall l :: l in ls <==> l == ls[0] || l in ls[1..];
      SpanNone(b, ls[1..]);
    }
  }

  /** Both ends of the range are occupied: some line falls in the first bucket and some in the last. */
  lemma {:induction false} SpanEnds(b: Bucketing, ls: seq<OrderLine>) returns (early: OrderLine, late: OrderLine)
    requires Span(b, ls).Some?
    ensures early in ls && BucketOf(b, early) == Some(Span(b, ls).value.first)
    ensures late in ls && BucketOf(b, late) == Some(Span(b, ls).value.last)
  {
    var rest := Span(b, ls[1..]);
    if rest.None? {
      early, late := ls[0], ls[0];
    } else {
      var e, l := SpanEnds(b, ls[1..]);
      early, late := e, l;
      if BucketOf(b, ls[0]).Some? {
        var k := BucketOf(b, ls[0]).value;
        if k < rest.value.first {
          early := ls[0];
        }
        if k > rest.value.last {
          late := ls[0];
        }
      }
    }
  }

  /** Every line with a bucket falls inside the range. */
  lemma {:induction false} SpanCovers(b: Bucketing, ls: seq<OrderLine>, l: OrderLine)
    requires l in ls && BucketOf(b, l).Some?
    ensures Span(b, ls).Some?
    ensures Span(b, ls).value.first <= BucketOf(b, l).value <= Span(b, ls).value.last
  {
    if l != ls[0] {
      SpanCovers(b, ls[1..], l);
    }
  }

  /**
   * The resample: one row per bucket from the earliest to the latest occupied
   * one, in order, each holding that bucket's aggregate (RowsFromAt).
   */
  function Resample(b: Bucketing, ls: seq<OrderLine>): (rows: seq<BucketRow>)
    ensures Span(b, ls).None? ==> rows == []
    ensures Span(b, ls).Some? ==>
              var lo, hi := Span(b, ls).value.first, Span(b, ls).value.last;
              |rows| == hi - lo + 1 && forall i :: 0 <= i < |rows| ==> rows[i].bucket == lo + i
  {
    var s := Span(b, ls);
    if s.None? then [] else RowsFrom(b, ls, s.value.first, s.value.last - s.value.first + 1)
  }

  /** A resample is empty exactly when no line has a bucket. */
  lemma ResampleEmpty(b: Bucketing, ls: seq<OrderLine>)
    ensures Resample(b, ls) == [] <==> forall l :: l in ls ==> BucketOf(b, l).None?
    ensures Resample(b, ls) == [] <==> Bucketed(b, ls) == []
  {
    SpanNone(b, ls);
    var r := Bucketed(b, ls);
    if |r| > 0 {
      assert r[0] in r;
    }
  }

  /** Every row of a resample is the aggregate of the lines in its bucket. */
  lemma ResampleRows(b: Bucketing, ls: seq<OrderLine>, i: nat)
    requires i < |Resample(b, ls)|
    ensures Resample(b, ls)[i] == RowOf(b, ls, Resample(b, ls)[i].bucket)
  {
    var lo, n := ResampleCovers(b, ls);
    RowsFromRow(b, ls, lo, n, i);
  }

  /**
   * The first and the last row of a resample are occupied buckets, and every
   * line with a bucket falls between them.
   */
  lemma ResampleEnds(b: Bucketing, ls: seq<OrderLine>)
    ensures var rows := Resample(b, ls);
      rows != [] ==>
        rows[0].orders >= 1 && rows[|rows| - 1].orders >= 1 &&
        forall l :: l in ls && BucketOf(b, l).Some? ==>
          rows[0].bucket <= BucketOf(b, l).value <= rows[|rows| - 1].bucket
  {
    var rows := Resample(b, ls);
    if |rows| > 0 {
      var lo, hi := Span(b, ls).value.first, Span(b, ls).value.last;
      ResampleRows(b, ls, 0);
      ResampleRows(b, ls, hi - lo);
      var early, late := SpanEnds(b, ls);
      OccupiedRow(b, ls, lo, early);
      OccupiedRow(b, ls, hi, late);
      forall l | l in ls && BucketOf(b, l).Some?
        ensures lo <= BucketOf(b, l).value <= hi
      {
        SpanCovers(b, ls, l);
      }
    }
  }

  /** Sum of the order-count column. */
  function TotalOrders(rows: seq<BucketRow>): int
  {
    if |rows| == 0 then 0 else rows[0].orders + TotalOrders(rows[1..])
  }

  /** Sum of the revenue column. */
  function TotalRevenue(rows: seq<BucketRow>): int
  {
    if |rows| == 0 then 0 else rows[0].revenue + TotalRevenue(rows[1..])
  }

  /** No order has lines in two different buckets; lines without a bucket do not count. */
  predicate SingleBucket(b: Bucketing, ls: seq<OrderLine>)
  {
    forall l1, l2 {:trigger l1 in ls, l2 in ls} ::
      l1 in ls && l2 in ls && l1.orderId == l2.orderId && BucketOf(b, l1).Some? && BucketOf(b, l2).Some? ==>
        BucketOf(b, l1) == BucketOf(b, l2)
  }

  /** Splitting a span in two splits its payment sum in two. */
  lemma {:induction false} RevenueSplit(b: Bucketing, ls: seq<OrderLine>, lo: nat, mid: nat, hi: nat)
    requires lo <= mid <= hi
    ensures SpanRevenue(b, ls, lo, hi) == SpanRevenue(b, ls, lo, mid) + SpanRevenue(b, ls, mid, hi)
  {
    if |ls| > 0 {
      RevenueSplit(b, ls[1..], lo, mid, hi);
    }
  }

  /** Splitting a span in two splits its order ids in two (possibly overlapping) parts. */
  lemma OrderIdsSplit(b: Bucketing, ls: seq<OrderLine>, lo: nat, mid: nat, hi: nat)
    requires lo <= mid <= hi
    ensures SpanOrderIds(b, ls, lo, hi) == SpanOrderIds(b, ls, lo, mid) + SpanOrderIds(b, ls, mid, hi)
  {
  }

  /** When no order spans two buckets, the order ids of neighbouring spans are disjoint. */
  lemma OrderIdsDisjoint(b: Bucketing, ls: seq<OrderLine>, lo: nat, mid: nat, hi: nat)
    requires lo <= mid <= hi && SingleBucket(b, ls)
    ensures SpanOrderIds(b, ls, lo, mid) * SpanOrderIds(b, ls, mid, hi) == {}
  {
    forall o | o in SpanOrderIds(b, ls, lo, mid) ensures o !in SpanOrderIds(b, ls, mid, hi) {
      var l1 :| l1 in ls && InSpan(b, l1, lo, mid) && l1.orderId == o;
      forall l2 | l2 in ls && l2.orderId == o
        ensures !InSpan(b, l2, mid, hi)
      {
        if BucketOf(b, l2).Some? {
          assert BucketOf(b, l1) == BucketOf(b, l2);
        }
      }
    }
  }

  /**
   * The distinct orders of a span number at most those of its two halves
   * together, and exactly as many when no order spans two buckets.
   */
  lemma OrderCountSplit(b: Bucketing, ls: seq<OrderLine>, lo: nat, mid: nat, hi: nat)
    requires lo <= mid <= hi
    ensures |SpanOrderIds(b, ls, lo, hi)| <= |SpanOrderIds(b, ls, lo, mid)| + |SpanOrderIds(b, ls, mid, hi)|
    ensures SingleBucket(b, ls) ==>
              |SpanOrderIds(b, ls, lo, hi)| == |SpanOrderIds(b, ls, lo, mid)| + |SpanOrderIds(b, ls, mid, hi)|
  {
    OrderIdsSplit(b, ls, lo, mid, hi);
    var first, rest := SpanOrderIds(b, ls, lo, mid), SpanOrderIds(b, ls, mid, hi);
    assert |first + rest| + |first * rest| == |first| + |rest|;
    if SingleBucket(b, ls) {
      OrderIdsDisjoint(b, ls, lo, mid, hi);
    }
  }

  /** The totals of a run of rows are its first row plus the totals of the rest. */
  lemma RowsFromHead(b: Bucketing, ls: seq<OrderLine>, lo: nat, n: nat)
    requires n > 0
    ensures TotalOrders(RowsFrom(b, ls, lo, n)) == RowOf(b, ls, lo).orders + TotalOrders(RowsFrom(b, ls, lo + 1, n - 1))
    ensures TotalRevenue(RowsFrom(b, ls, lo, n)) == RowOf(b, ls, lo).revenue + TotalRevenue(RowsFrom(b, ls, lo + 1, n - 1))
  {
    var rows, rest := RowsFrom(b, ls, lo, n), RowsFrom(b, ls, lo + 1, n - 1);
    assert rows[1..] == rest;
  }

  /** Adding up the rows of consecutive buckets gives the payment sum of the lines in them. */
  lemma {:induction false} RowsFromRevenue(b: Bucketing, ls: seq<OrderLine>, lo: nat, n: nat)
    ensures TotalRevenue(RowsFrom(b, ls, lo, n)) == SpanRevenue(b, ls, lo, lo + n)
    decreases n
  {
    var rows := RowsFrom(b, ls, lo, n);
    if n == 0 {
      EmptySpan(b, ls, lo);
    } else {
      assert TotalRevenue(rows) == SpanRevenue(b, ls, lo, lo + 1) + TotalRevenue(RowsFrom(b, ls, lo + 1, n - 1)) by {
        RowsFromHead(b, ls, lo, n);
      }
      RowsFromRevenue(b, ls, lo + 1, n - 1);
      RevenueSplit(b, ls, lo, lo + 1, lo + n);
    }
  }

  /**
   * Adding up the order counts of consecutive buckets never undercounts the
   * distinct orders in them, and counts each exactly once when every order
   * lies in a single bucket.
   */
  lemma {:induction false} RowsFromOrders(b: Bucketing, ls: seq<OrderLine>, lo: nat, n: nat)
    ensures TotalOrders(RowsFrom(b, ls, lo, n)) >= |SpanOrderIds(b, ls, lo, lo + n)|
    ensures SingleBucket(b, ls) ==> TotalOrders(RowsFrom(b, ls, lo, n)) == |SpanOrderIds(b, ls, lo, lo + n)|
    decreases n
  {
    var rows := RowsFrom(b, ls, lo, n);
    if n == 0 {
      EmptySpan(b, ls, lo);
    } else {
      var single := SingleBucket(b, ls);
      var head, later := |SpanOrderIds(b, ls, lo, lo + 1)|, TotalOrders(RowsFrom(b, ls, lo + 1, n - 1));
      var whole, rest := |SpanOrderIds(b, ls, lo, lo + n)|, |SpanOrderIds(b, ls, lo + 1, lo + n)|;
      assert TotalOrders(rows) == head + later by {
        RowsFromHead(b, ls, lo, n);
      }
      assert later >= rest && (single ==> later == rest) by {
        RowsFromOrders(b, ls, lo + 1, n - 1);
      }
      assert whole <= head + rest && (single ==> whole == head + rest) by {
        OrderCountSplit(b, ls, lo, lo + 1, lo + n);
      }
    }
  }

  /** A non-empty resample is the run of rows over its range, and that range holds every bucketed line. */
  lemma ResampleCovers(b: Bucketing, ls: seq<OrderLine>) returns (lo: nat, n: nat)
    requires Span(b, ls).Some?
    ensures Resample(b, ls) == RowsFrom(b, ls, lo, n)
    ensures forall l :: l in ls && BucketOf(b, l).Some? ==> lo <= BucketOf(b, l).value < lo + n
  {
    var hi := Span(b, ls).value.last;
    lo := Span(b, ls).value.first;
    n := hi - lo + 1;
    forall l | l in ls && BucketOf(b, l).Some?
      ensures lo <= BucketOf(b, l).value < lo + n
    {
      SpanCovers(b, ls, l);
    }
  }

  /** When every bucketed line lies in [lo, hi), that span holds the payment sum of all the bucketed lines. */
  lemma {:induction false} RevenueCovering(b: Bucketing, ls: seq<OrderLine>, lo: nat, hi: nat)
    requires forall l :: l in ls && BucketOf(b, l).Some? ==> lo <= BucketOf(b, l).value < hi
    ensures SpanRevenue(b, ls, lo, hi) == Revenue(Bucketed(b, ls))
  {
    if |ls| > 0 {
      assert ls[0] in ls;
      assert forall l :: l in ls[1..] ==> l in ls;
      RevenueCovering(b, ls[1..], lo, hi);
      var rest := Bucketed(b, ls[1..]);
      if BucketOf(b, ls[0]).Some? {
        var all := [ls[0]] + rest;
        assert Bucketed(b, ls) == all;
        assert all[0] == ls[0] && all[1..] == rest;
      } else {
        assert Bucketed(b, ls) == rest;
      }
    }
  }

  /** When every bucketed line lies in [lo, hi), that span holds the order ids of all the bucketed lines. */
  lemma OrderIdsCovering(b: Bucketing, ls: seq<OrderLine>, lo: nat, hi: nat)
    requires forall l :: l in ls && BucketOf(b, l).Some? ==> lo <= BucketOf(b, l).value < hi
    ensures SpanOrderIds(b, ls, lo, hi) == OrderIds(Bucketed(b, ls))
  {
  }

  /** A run of rows covering every bucketed line adds up to their payment sum. */
  lemma CoveredRevenue(b: Bucketing, ls: seq<OrderLine>, lo: nat, n: nat)
    requires forall l :: l in ls && BucketOf(b, l).Some? ==> lo <= BucketOf(b, l).value < lo + n
    ensures TotalRevenue(RowsFrom(b, ls, lo, n)) == Revenue(Bucketed(b, ls))
  {
    RevenueCovering(b, ls, lo, lo + n);
    RowsFromRevenue(b, ls, lo, n);
  }

  /**
   * A run of rows covering every bucketed line counts at least their distinct
   * orders, and exactly that many when no order spans two buckets.
   */
  lemma CoveredOrders(b: Bucketing, ls: seq<OrderLine>, lo: nat, n: nat)
    requires forall l :: l in ls && BucketOf(b, l).Some? ==> lo <= BucketOf(b, l).value < lo + n
    ensures TotalOrders(RowsFrom(b, ls, lo, n)) >= |OrderIds(Bucketed(b, ls))|
    ensures SingleBucket(b, ls) ==> TotalOrders(RowsFrom(b, ls, lo, n)) == |OrderIds(Bucketed(b, ls))|
  {
    OrderIdsCovering(b, ls, lo, lo + n);
    RowsFromOrders(b, ls, lo, n);
  }

  /** The revenue column of a resample adds up to the payment sum of every bucketed line. */
  lemma ResampleRevenue(b: Bucketing, ls: seq<OrderLine>)
    ensures TotalRevenue(Resample(b, ls)) == Revenue(Bucketed(b, ls))
  {
    if Span(b, ls).Some? {
      var lo, n := ResampleCovers(b, ls);
      CoveredRevenue(b, ls, lo, n);
    } else {
      ResampleEmpty(b, ls);
    }
  }

  /**
   * The order column of a resample adds up to at least the number of distinct
   * orders among the bucketed lines, and to exactly that number when no order
   * spans two buckets.
   */
  lemma ResampleOrders(b: Bucketing, ls: seq<OrderLine>)
    ensures TotalOrders(Resample(b, ls)) >= |OrderIds(Bucketed(b, ls))|
    ensures SingleBucket(b, ls) ==> TotalOrders(Resample(b, ls)) == |OrderIds(Bucketed(b, ls))|
  {
    if Span(b, ls).Some? {
      var lo, n := ResampleCovers(b, ls);
      CoveredOrders(b, ls, lo, n);
    } else {
      ResampleEmpty(b, ls);
    }
  }
}
