/**
 * The sidebar's date-range filter: the rows whose approval timestamp lies
 * between the two chosen dates. Each chosen date is turned into a string and
 * compared with the timestamp column, so it stands for 00:00:00 of that day;
 * a missing (NaT) approval compares false and the row is dropped.
 *
 * The end bound is therefore midnight at the START of the end date: rows
 * approved later on the end date are dropped (FilterDropsEndDay), including,
 * with the default range, the latest approved row (DefaultRangeDropsLatest).
 * FilterDays keeps whole days, which is what the range picker evidently means
 * (DefaultRangeKeepsAll).
 */
module DateFilter {
  import opened Records

  /** The filter's test as written: midnight of start <= approval <= midnight of end. */
  predicate InRange(l: OrderLine, start: nat, end: nat)
  {
    match l.approvedAt
    case None => false
    case Some(t) => Midnight(start) <= t <= Midnight(end)
  }

  /** The rows that pass the filter as written, in their original order. */
  function Filter(ls: seq<OrderLine>, start: nat, end: nat): (r: seq<OrderLine>)
    ensures forall l :: l in r <==> l in ls && InRange(l, start, end)
    ensures |r| <= |ls|
  {
    if |ls| == 0 then []
    else (if InRange(ls[0], start, end) then [ls[0]] else []) + Filter(ls[1..], start, end)
  }

  /** A row that passes is kept as many times as it occurs; any other row is gone. */
  lemma {:induction false} FilterCounts(ls: seq<OrderLine>, start: nat, end: nat, l: OrderLine)
    ensures multiset(Filter(ls, start, end))[l] == if InRange(l, start, end) then multiset(ls)[l] else 0
  {
    if |ls| > 0 {
      var head := if InRange(ls[0], start, end) then [ls[0]] else [];
      FilterCounts(ls[1..], start, end, l);
      assert ls == [ls[0]] + ls[1..];
      assert Filter(ls, start, end) == head + Filter(ls[1..], start, end);
      assert multiset(ls)[l] == multiset([ls[0]])[l] + multiset(ls[1..])[l];
    }
  }

  /** Filtering a concatenation filters each part: survivors keep their relative order. */
  lemma {:induction false} FilterAppend(a: seq<OrderLine>, b: seq<OrderLine>, start: nat, end: nat)
    ensures Filter(a + b, start, end) == Filter(a, start, end) + Filter(b, start, end)
  {
    if |a| == 0 {
      assert a + b == b;
    } else {
      assert (a + b)[1..] == a[1..] + b;
      FilterAppend(a[1..], b, start, end);
    }
  }

  /** Every row approved on the end date after 00:00:00 is dropped. */
  lemma FilterDropsEndDay(ls: seq<OrderLine>, start: nat, end: nat, l: OrderLine)
    requires l.approvedAt.Some? && DayOf(l.approvedAt.value) == end && l.approvedAt.value > Midnight(end)
    ensures l !in Filter(ls, start, end)
  {
  }

  /** A row approved at 17:40:06 on 2018-09-03 (day 17777) does not survive the range 2018-09-03 .. 2018-09-03. */
  lemma SameDayExample(l: OrderLine)
    requires l.approvedAt == Some(17777 * SecondsPerDay + 63606)
    ensures DayOf(l.approvedAt.value) == 17777
    ensures Filter([l], 17777, 17777) == []
  {
  }

  /** The evidently intended test: the approval falls on a date from start to end, both included. */
  predicate InDays(l: OrderLine, start: nat, end: nat)
  {
    match l.approvedAt
    case None => false
    case Some(t) => start <= DayOf(t) <= end
  }

  /** The rows approved on the chosen dates, in their original order. */
  function FilterDays(ls: seq<OrderLine>, start: nat, end: nat): (r: seq<OrderLine>)
    ensures forall l :: l in r <==> l in ls && InDays(l, start, end)
    ensures |r| <= |ls|
  {
    if |ls| == 0 then []
    else (if InDays(ls[0], start, end) then [ls[0]] else []) + FilterDays(ls[1..], start, end)
  }

  /** Under the whole-day test too, a row that passes is kept as many times as it occurs. */
  lemma {:induction false} FilterDaysCounts(ls: seq<OrderLine>, start: nat, end: nat, l: OrderLine)
    ensures multiset(FilterDays(ls, start, end))[l] == if InDays(l, start, end) then multiset(ls)[l] else 0
  {
    if |ls| > 0 {
      var head := if InDays(ls[0], start, end) then [ls[0]] else [];
      FilterDaysCounts(ls[1..], start, end, l);
      assert ls == [ls[0]] + ls[1..];
      assert FilterDays(ls, start, end) == head + FilterDays(ls[1..], start, end);
      assert multiset(ls)[l] == multiset([ls[0]])[l] + multiset(ls[1..])[l];
    }
  }

  /** The whole-day filter keeps the relative order of its survivors. */
  lemma {:induction false} FilterDaysAppend(a: seq<OrderLine>, b: seq<OrderLine>, start: nat, end: nat)
    ensures FilterDays(a + b, start, end) == FilterDays(a, start, end) + FilterDays(b, start, end)
  {
    if |a| == 0 {
      assert a + b == b;
    } else {
      assert (a + b)[1..] == a[1..] + b;
      FilterDaysAppend(a[1..], b, start, end);
    }
  }

  /**
   * The two tests differ only on the end date: the filter as written passes a
   * row approved that day only when it was approved at exactly 00:00:00.
   */
  lemma RangeVersusDays(l: OrderLine, start: nat, end: nat)
    requires l.approvedAt.Some?
    ensures InRange(l, start, end) <==>
              InDays(l, start, end) && (DayOf(l.approvedAt.value) < end || l.approvedAt.value == Midnight(end))
  {
    DayOfBounds(l.approvedAt.value);
  }

  /**
   * With the picker's default range, from the date of the earliest approval
   * (`min()`) to the date of the latest (`max()`), the whole-day filter keeps
   * every approved row.
   */
  lemma DefaultRangeKeepsAll(ls: seq<OrderLine>)
    requires Approvals(ls) != []
    ensures forall l :: l in FilterDays(ls, DayOf(Earliest(Approvals(ls)).value), DayOf(Latest(Approvals(ls)).value)) <==>
                        l in ls && l.approvedAt.Some?
  {
    var lo, hi := Earliest(Approvals(ls)).value, Latest(Approvals(ls)).value;
    forall l | l in ls && l.approvedAt.Some?
      ensures InDays(l, DayOf(lo), DayOf(hi))
    {
      assert l.approvedAt.value in Approvals(ls);
      DayOfMonotone(lo, l.approvedAt.value);
      DayOfMonotone(l.approvedAt.value, hi);
    }
  }

  /**
   * With the same default range the filter as written drops every row
   * approved at the latest approval time, unless that time is exactly midnight.
   */
  lemma DefaultRangeDropsLatest(ls: seq<OrderLine>)
    requires Approvals(ls) != [] && Latest(Approvals(ls)).value % SecondsPerDay != 0
    ensures exists l :: l in ls && l.approvedAt == Latest(Approvals(ls))
    ensures forall l :: l in ls && l.approvedAt == Latest(Approvals(ls)) ==>
              l !in Filter(ls, DayOf(Earliest(Approvals(ls)).value), DayOf(Latest(Approvals(ls)).value))
  {
    var hi := Latest(Approvals(ls)).value;
    assert hi in Approvals(ls);
    DayOfBounds(hi);
  }
}
