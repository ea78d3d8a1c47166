/**
 * `groupby(key).column.nunique()`: the distinct values of one column within
 * each group of lines sharing a key. The category table counts products per
 * category, the state table customers per state, and the RFM table orders
 * per customer.
 *
 * Lines whose key is missing (a product without an English category name)
 * form no group, as pandas drops NaN keys.
 */
module Groups {
  import opened Records

  /** What the lines are grouped by and what is counted within each group. */
  datatype Grouping = ProductsPerCategory | CustomersPerState | OrdersPerCustomer

  /** The group key of a line; None when the key is missing. */
  function KeyOf(g: Grouping, l: OrderLine): Option<string>
  {
    match g
    case ProductsPerCategory => l.category
    case CustomersPerState => Some(l.state)
    case OrdersPerCustomer => Some(l.customerId)
  }

  /** The column whose distinct values are counted. */
  function Counted(g: Grouping, l: OrderLine): string
  {
    match g
    case ProductsPerCategory => l.productId
    case CustomersPerState => l.customerId
    case OrdersPerCustomer => l.orderId
  }

  /** Some line carries key k. */
  predicate HasKey(g: Grouping, ls: seq<OrderLine>, k: string)
  {
    exists l :: l in ls && KeyOf(g, l) == Some(k)
  }

  predicate Distinct(ks: seq<string>)
  {
    forall i, j :: 0 <= i < j < |ks| ==> ks[i] != ks[j]
  }

  /** The group keys, each once, in order of first appearance. */
  function Keys(g: Grouping, ls: seq<OrderLine>): (ks: seq<string>)
    ensures Distinct(ks)
    ensures forall k :: k in ks <==> HasKey(g, ls, k)
    decreases |ls|
  {
    if |ls| == 0 then []
    else
      var init, last := ls[..|ls| - 1], ls[|ls| - 1];
      assert ls == init + [last];
      assert forall l :: l in ls <==> l in init || l == last;
      var ks := Keys(g, init);
      match KeyOf(g, last)
      case None => ks
      case Some(k) => if k in ks then ks else ks + [k]
  }

  /** The distinct values of the counted column among the lines with key k. */
  function Members(g: Grouping, ls: seq<OrderLine>, k: string): set<string>
  {
    set l | l in ls && KeyOf(g, l) == Some(k) :: Counted(g, l)
  }

  /** A group that exists has at least one member. */
  lemma MembersNonEmpty(g: Grouping, ls: seq<OrderLine>, k: string)
    requires HasKey(g, ls, k)
    ensures |Members(g, ls, k)| >= 1
  {
    var l :| l in ls && KeyOf(g, l) == Some(k);
    assert Counted(g, l) in Members(g, ls, k);
  }

  /** One row of a count table: a group key and its number of distinct members. */
  datatype CountRow = CountRow(key: string, count: nat)

  /** The rows of the listed groups, in the order listed. */
  function Tally(g: Grouping, ls: seq<OrderLine>, ks: seq<string>): (t: seq<CountRow>)
    ensures |t| == |ks|
    ensures forall i :: 0 <= i < |ks| ==> t[i].key == ks[i] && t[i].count == |Members(g, ls, ks[i])|
  {
    if |ks| == 0 then [] else [CountRow(ks[0], |Members(g, ls, ks[0])|)] + Tally(g, ls, ks[1..])
  }

  /** No key appears on two rows. */
  predicate UniqueKeys(t: seq<CountRow>)
  {
    forall i, j :: 0 <= i < j < |t| ==> t[i].key != t[j].key
  }

  /**
   * The unsorted `nunique` table: one row per group, each key once, exactly
   * the keys some line carries, each with its distinct-member count, at least 1.
   */
  lemma TallyOfKeys(g: Grouping, ls: seq<OrderLine>)
    ensures var t := Tally(g, ls, Keys(g, ls));
      UniqueKeys(t) &&
      (forall k :: HasKey(g, ls, k) <==> exists r :: r in t && r.key == k) &&
      (forall r :: r in t ==> r.count == |Members(g, ls, r.key)| >= 1)
  {
    var ks := Keys(g, ls);
    var t := Tally(g, ls, ks);
    forall r | r in t
      ensures HasKey(g, ls, r.key) && r.count == |Members(g, ls, r.key)| >= 1
    {
      var i :| 0 <= i < |t| && t[i] == r;
      assert ks[i] in ks;
      MembersNonEmpty(g, ls, r.key);
    }
    forall k | HasKey(g, ls, k)
      ensures exists r :: r in t && r.key == k
    {
      var i :| 0 <= i < |ks| && ks[i] == k;
      assert t[i] in t;
    }
  }
}
