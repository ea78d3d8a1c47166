/**
 * The two ranked tables, `sort_values(ascending=False)` over a `nunique`
 * count: distinct products per category and distinct customers per state;
 * and the display's "best" and "worst" five categories, `head()` of the
 * descending table and `head()` of its ascending re-sort.
 *
 * Rows of equal count may come out in either order from pandas' default sort;
 * this model fixes one order: the descending sort is stable, and the
 * ascending re-sort is its mirror image.
 */
module Ranking {
  import opened Records
  import opened Groups

  predicate NonIncreasing(t: seq<CountRow>)
  {
    forall i, j :: 0 <= i < j < |t| ==> t[i].count >= t[j].count
  }

  predicate NonDecreasing(t: seq<CountRow>)
  {
    forall i, j :: 0 <= i < j < |t| ==> t[i].count <= t[j].count
  }

  /** Puts x in front of the first row whose count is not larger than its own. */
  function Insert(x: CountRow, s: seq<CountRow>): (r: seq<CountRow>)
    ensures multiset(r) == multiset(s) + multiset{x}
    ensures forall y :: y in r <==> y == x || y in s
  {
    if |s| == 0 || s[0].count <= x.count then [x] + s
    else
      assert s == [s[0]] + s[1..];
      [s[0]] + Insert(x, s[1..])
  }

  /** Inserting into a table whose counts never increase keeps them so. */
  lemma {:induction false} InsertSorted(x: CountRow, s: seq<CountRow>)
    requires NonIncreasing(s)
    ensures NonIncreasing(Insert(x, s))
  {
    var r := Insert(x, s);
    if |s| == 0 || s[0].count <= x.count {
      forall i, j | 0 <= i < j < |r|
        ensures r[i].count >= r[j].count
      {
        if i > 0 {
          assert r[i] == s[i - 1] && r[j] == s[j - 1];
        } else {
          assert r[j] == s[j - 1];
        }
      }
    } else {
      var rest := Insert(x, s[1..]);
      InsertSorted(x, s[1..]);
      assert r == [s[0]] + rest;
      forall i, j | 0 <= i < j < |r|
        ensures r[i].count >= r[j].count
      {
        assert r[j] == rest[j - 1];
        if i > 0 {
          assert r[i] == rest[i - 1];
        } else {
          assert rest[j - 1] in rest;
          assert rest[j - 1] == x || rest[j - 1] in s[1..];
        }
      }
    }
  }

  /** `sort_values(ascending=False)` on the count column (stable). */
  function SortDescending(t: seq<CountRow>): (r: seq<CountRow>)
    ensures multiset(r) == multiset(t)
  {
    if |t| == 0 then []
    else
      assert t == [t[0]] + t[1..];
      Insert(t[0], SortDescending(t[1..]))
  }

  /** The sorted table's counts never increase. */
  lemma {:induction false} SortSorted(t: seq<CountRow>)
    ensures NonIncreasing(SortDescending(t))
  {
    if |t| > 0 {
      SortSorted(t[1..]);
      InsertSorted(t[0], SortDescending(t[1..]));
    }
  }

  /** Inserting a row under a new key keeps every key unique. */
  lemma {:induction false} InsertUnique(x: CountRow, s: seq<CountRow>)
    requires UniqueKeys(s) && forall y :: y in s ==> y.key != x.key
    ensures UniqueKeys(Insert(x, s))
  {
    if |s| > 0 && s[0].count > x.count {
      assert forall y :: y in s[1..] ==> y in s;
      InsertUnique(x, s[1..]);
      var r := Insert(x, s[1..]);
      assert forall y :: y in r ==> y.key != s[0].key by {
        assert s[0] !in s[1..] && forall y :: y in s[1..] ==> y.key != s[0].key;
      }
    }
  }

  /** Sorting keeps every key unique. */
  lemma {:induction false} SortUnique(t: seq<CountRow>)
    requires UniqueKeys(t)
    ensures UniqueKeys(SortDescending(t))
  {
    if |t| > 0 {
      SortUnique(t[1..]);
      var rest := SortDescending(t[1..]);
      forall y | y in rest
        ensures y.key != t[0].key
      {
        assert y in multiset(rest);
        var i :| 0 <= i < |t[1..]| && t[1..][i] == y;
        assert t[i + 1] == y;
      }
      InsertUnique(t[0], rest);
    }
  }

  /** The table of distinct-member counts per group, largest count first. */
  function Ranked(g: Grouping, ls: seq<OrderLine>): seq<CountRow>
  {
    SortDescending(Tally(g, ls, Keys(g, ls)))
  }

  /** `create_sum_order_items_df`: distinct products per non-missing category, largest first. */
  function CategoryTable(ls: seq<OrderLine>): (t: seq<CountRow>)
    ensures NonIncreasing(t) && UniqueKeys(t)
    ensures forall r :: r in t ==> r.count == |Members(ProductsPerCategory, ls, r.key)| >= 1
  {
    RankedTable(ProductsPerCategory, ls);
    Ranked(ProductsPerCategory, ls)
  }

  /** `create_bystate_df`: distinct customers per state, largest first. */
  function StateTable(ls: seq<OrderLine>): (t: seq<CountRow>)
    ensures NonIncreasing(t) && UniqueKeys(t)
    ensures forall r :: r in t ==> r.count == |Members(CustomersPerState, ls, r.key)| >= 1
  {
    RankedTable(CustomersPerState, ls);
    Ranked(CustomersPerState, ls)
  }

  /**
   * A ranked table lists every group exactly once, with its distinct-member
   * count (at least 1), and counts never increase down the table.
   */
  lemma RankedTable(g: Grouping, ls: seq<OrderLine>)
    ensures var t := Ranked(g, ls);
      NonIncreasing(t) && UniqueKeys(t) &&
      (forall k :: HasKey(g, ls, k) <==> exists r :: r in t && r.key == k) &&
      (forall r :: r in t ==> r.count == |Members(g, ls, r.key)| >= 1)
  {
    var u := Tally(g, ls, Keys(g, ls));
    var t := SortDescending(u);
    TallyOfKeys(g, ls);
    SortUnique(u);
    SortSorted(u);
    assert forall r :: r in t <==> r in u by {
      assert forall r :: r in t <==> r in multiset(t);
    }
  }

  function Reverse(t: seq<CountRow>): (r: seq<CountRow>)
    ensures |r| == |t|
    ensures forall i :: 0 <= i < |t| ==> r[i] == t[|t| - 1 - i]
  {
    if |t| == 0 then [] else Reverse(t[1..]) + [t[0]]
  }

  /** The ascending re-sort of a descending table: the same rows, counts never decreasing. */
  lemma AscendingResort(t: seq<CountRow>)
    requires NonIncreasing(t)
    ensures NonDecreasing(Reverse(t))
    ensures multiset(Reverse(t)) == multiset(t)
  {
    var r := Reverse(t);
    forall i, j | 0 <= i < j < |r|
      ensures r[i].count <= r[j].count
    {
      assert r[i] == t[|t| - 1 - i] && r[j] == t[|t| - 1 - j];
    }
    ReverseMultiset(t);
  }

  lemma {:induction false} ReverseMultiset(t: seq<CountRow>)
    ensures multiset(Reverse(t)) == multiset(t)
  {
    if |t| > 0 {
      ReverseMultiset(t[1..]);
      assert t == [t[0]] + t[1..];
    }
  }

  /**
   * The five best-selling categories (line 126), by `head()`: the first five
   * rows, or all of them when there are fewer.
   */
  function Best(t: seq<CountRow>): (r: seq<CountRow>)
    ensures |r| == if |t| < 5 then |t| else 5
    ensures forall i :: 0 <= i < |r| ==> r[i] == t[i]
    ensures r <= t
  {
    if |t| < 5 then t else t[..5]
  }

  /** The five worst-selling categories (line 133): the head of the ascending re-sort. */
  function Worst(t: seq<CountRow>): (r: seq<CountRow>)
    ensures |r| == if |t| < 5 then |t| else 5
    ensures forall i :: 0 <= i < |r| ==> r[i] == t[|t| - 1 - i]
  {
    Best(Reverse(t))
  }

  /**
   * In a table of at least ten rows whose counts never increase, no row of the
   * first five has a smaller count than a row of the ascending re-sort's first
   * five, and when keys are unique no key is in both.
   */
  lemma SeparatedEnds(t: seq<CountRow>)
    requires |t| >= 10 && NonIncreasing(t)
    ensures |Best(t)| == 5 && |Worst(t)| == 5
    ensures forall i, j :: 0 <= i < 5 && 0 <= j < 5 ==> Best(t)[i].count >= Worst(t)[j].count
    ensures UniqueKeys(t) ==> forall i, j :: 0 <= i < 5 && 0 <= j < 5 ==> Best(t)[i].key != Worst(t)[j].key
  {
    var best, worst := Best(t), Worst(t);
    assert forall i :: 0 <= i < 5 ==> best[i] == t[i];
    assert forall j :: 0 <= j < 5 ==> worst[j] == t[|t| - 1 - j];
  }

  /**
   * With at least ten categories, no "best" category sold fewer distinct
   * products than a "worst" one, and no category is on both lists.
   */
  lemma BestAndWorst(ls: seq<OrderLine>)
    requires |CategoryTable(ls)| >= 10
    ensures |Best(CategoryTable(ls))| == 5 && |Worst(CategoryTable(ls))| == 5
    ensures forall i, j :: 0 <= i < 5 && 0 <= j < 5 ==>
              Best(CategoryTable(ls))[i].count >= Worst(CategoryTable(ls))[j].count
    ensures forall i, j :: 0 <= i < 5 && 0 <= j < 5 ==>
              Best(CategoryTable(ls))[i].key != Worst(CategoryTable(ls))[j].key
  {
    RankedTable(ProductsPerCategory, ls);
    SeparatedEnds(CategoryTable(ls));
  }
}
