/**
 * The dashboard's summary: once the customers, orders and payments have
 * loaded, the two totals, this month's income, and the five newest orders
 * each joined to its customer.
 */
module Dashboard {
  import opened Wrappers
  import opened JsValues
  import opened Seqs

  /** `stats` */
  datatype Stats = Stats(totalCustomers: nat, totalOrders: nat, monthlyIncome: int)

  /** What the page shows: the stats, the recent orders and whether it is still loading. */
  datatype View = View(stats: Stats, recent: seq<Rec>, loading: bool)

  /** The page as it first renders. */
  const Initial := View(Stats(0, 0, 0), [], true)

  /** `new Date(p.createdAt) >= firstDayOfMonth`; an invalid date compares false. */
  predicate InMonth(p: Rec, monthStart: int) {
    var t := TimeOf(Get(p, "createdAt"));
    t.Some? && t.value >= monthStart
  }

  /** `p.amount || 0`, the term a payment adds to the month's income. */
  function AmountOf(p: Rec): int {
    match Or(Get(p, "amount"), Num(0))
    case Num(n) => n
    case _ => 0
  }

  /** `monthlyIncome`: the amounts of this month's payments, summed. */
  function MonthlyIncome(payments: seq<Rec>, monthStart: int): int {
    SumOf(Filter(payments, p => InMonth(p, monthStart)), AmountOf)
  }

  /** `customers.find(c => c._id === order.customerId)`, as the value stored in `customer`. */
  function CustomerOf(customers: seq<Rec>, order: Rec): (c: Value)
    ensures c == Undefined <==> forall i :: 0 <= i < |customers| ==> !StrictEq(Get(customers[i], "_id"), Get(order, "customerId"))
    ensures c != Undefined ==> exists i :: FirstMatch(customers, x => StrictEq(Get(x, "_id"), Get(order, "customerId")), i)
                                           && c == Obj(customers[i])
  {
    match Find(customers, x => StrictEq(Get(x, "_id"), Get(order, "customerId")))
    case None => Undefined
    case Some(x) => Obj(x)
  }

  /** `{...order, customer}` */
  function Joined(customers: seq<Rec>, order: Rec): Rec {
    order["customer" := CustomerOf(customers, order)]
  }

  /** The orders `recentOrders` is built from: a sorted copy, newest first, cut to five. */
  function Newest(orders: seq<Rec>): seq<Rec> {
    Take(SortDesc(orders, CreatedKey), 5)
  }

  /**
   * `recentOrdersWithCustomer`: each of the newest orders with its customer
   * added, the first customer with the order's `customerId` or `undefined`.
   */
  function RecentOrders(customers: seq<Rec>, orders: seq<Rec>): (r: seq<Rec>)
    ensures |r| == |Newest(orders)|
    ensures forall i :: 0 <= i < |r| ==>
      (forall f :: f != "customer" ==> Get(r[i], f) == Get(Newest(orders)[i], f))
      && Get(r[i], "customer") == CustomerOf(customers, Newest(orders)[i])
  {
    Map(Newest(orders), o => Joined(customers, o))
  }

  /**
   * The stats effect: while any of the three collections is loading the
   * page is left as it was; once all three have loaded, the totals are the
   * collection sizes, and income and recent orders are recomputed.
   */
  function Refresh(v: View, customersLoading: bool, ordersLoading: bool, paymentsLoading: bool,
                   customers: seq<Rec>, orders: seq<Rec>, payments: seq<Rec>, monthStart: int): (v': View)
    ensures customersLoading || ordersLoading || paymentsLoading ==> v' == v
    ensures !(customersLoading || ordersLoading || paymentsLoading) ==>
      !v'.loading
      && v'.stats.totalCustomers == |customers| && v'.stats.totalOrders == |orders|
      && v'.stats.monthlyIncome == MonthlyIncome(payments, monthStart)
      && v'.recent == RecentOrders(customers, orders)
  {
    if customersLoading || ordersLoading || paymentsLoading then v
    else View(Stats(|customers|, |orders|, MonthlyIncome(payments, monthStart)), RecentOrders(customers, orders), false)
  }

  /** Every payment is counted once: this month's income plus the older (or undated) payments' amounts is the sum of all amounts. */
  lemma MonthlyIncomeSplit(payments: seq<Rec>, monthStart: int)
    ensures MonthlyIncome(payments, monthStart) + SumOf(Filter(payments, p => !InMonth(p, monthStart)), AmountOf)
      == SumOf(payments, AmountOf)
  {
    SumOfFilterSplit(payments, p => InMonth(p, monthStart), p => !InMonth(p, monthStart), AmountOf);
  }

  /** A month in which no payment was made has no income. */
  lemma MonthlyIncomeNone(payments: seq<Rec>, monthStart: int)
    requires forall i :: 0 <= i < |payments| ==> !InMonth(payments[i], monthStart)
    ensures MonthlyIncome(payments, monthStart) == 0
  {
    FilterNone(payments, p => InMonth(p, monthStart));
  }

  /** A payment adds its amount to the month's income when it falls in the month, and nothing otherwise. */
  lemma MonthlyIncomeAppend(payments: seq<Rec>, p: Rec, monthStart: int)
    ensures MonthlyIncome(payments + [p], monthStart)
      == MonthlyIncome(payments, monthStart) + (if InMonth(p, monthStart) then AmountOf(p) else 0)
  {
    var inMonth := q => InMonth(q, monthStart);
    FilterAppend(payments, p, inMonth);
    SumOfConcat(Filter(payments, inMonth), if inMonth(p) then [p] else [], AmountOf);
  }

  /** Filtering a sequence with one more element at its end. */
  lemma {:induction false} FilterAppend<T(!new)>(s: seq<T>, x: T, p: T -> bool)
    ensures Filter(s + [x], p) == Filter(s, p) + (if p(x) then [x] else [])
  {
    if s == [] {
      assert [] + [x] == [x];
    } else {
      FilterAppend(s[1..], x, p);
      assert (s + [x])[1..] == s[1..] + [x];
    }
  }

  /**
   * At most five orders are shown, newest first; each one is an order of
   * the list, and any order left out is no newer than every order shown.
   */
  lemma NewestOrders(orders: seq<Rec>)
    ensures |Newest(orders)| == if |orders| < 5 then |orders| else 5
    ensures SortedDesc(Newest(orders), CreatedKey)
    ensures multiset(Newest(orders)) <= multiset(orders)
    ensures forall o :: multiset(Newest(orders))[o] < multiset(orders)[o] ==>
              forall i :: 0 <= i < |Newest(orders)| ==> CreatedKey(o) <= CreatedKey(Newest(orders)[i])
  {
    SortDescTop(orders, CreatedKey, 5);
  }

  /** Joining a customer leaves `createdAt` alone, so the recent orders are newest first. */
  lemma RecentOrdersSorted(customers: seq<Rec>, orders: seq<Rec>)
    ensures SortedDesc(RecentOrders(customers, orders), CreatedKey)
  {
    NewestOrders(orders);
    var shown := Newest(orders);
    var r := RecentOrders(customers, orders);
    forall i | 0 <= i < |r| ensures CreatedKey(r[i]) == CreatedKey(shown[i]) {
      assert Get(r[i], "createdAt") == Get(shown[i], "createdAt");
    }
  }
}
