/**
  The two sides of an integrity run together: what the publish loop recorded is
  what the windows are checked against at the end.
*/
module IntegrityRun {
  import opened IntegrityPublisher
  import opened IntegrityVerifier
  import opened IntegrityEmissions

  /** What an order adds to its group's amount, tax included, in cents. */
  type Price = Order -> int

  function OrderItems(orders: map<int, Order>, n: nat, price: Price): (items: seq<Published>)
    requires forall i :: 1 <= i <= n ==> i in orders
    ensures |items| == n
    ensures forall i :: 0 <= i < n ==>
      items[i] == Published(orders[i + 1].eventMs, orders[i + 1].region, true, price(orders[i + 1]))
  {
    if n == 0 then []
    else
      OrderItems(orders, n - 1, price) + [Published(orders[n].eventMs, orders[n].region, true, price(orders[n]))]
  }

  function PaymentItems(payments: map<int, Payment>, n: nat): (items: seq<Published>)
    requires forall i :: 1 <= i <= n ==> i in payments
    ensures |items| == n
    ensures forall i :: 0 <= i < n ==>
      items[i] == Published(payments[i + 1].eventMs, payments[i + 1].region, false, payments[i + 1].amount)
  {
    if n == 0 then []
    else
      PaymentItems(payments, n - 1) + [Published(payments[n].eventMs, payments[n].region, false, payments[n].amount)]
  }

  /** The registry's orders, then its payments. */
  function Items(s: State, price: Price): seq<Published>
    requires Numbered(s)
  {
    OrderItems(s.orders, s.orderId, price) + PaymentItems(s.payments, s.paymentId)
  }

  function RunItems(step: int, draws: seq<Draw>, price: Price): seq<Published>
    requires step > 0
  {
    RunKeepsInv(step, draws);
    Items(Run(step, draws), price)
  }

  // ---------- every record carries its own timestamp ----------

  ghost predicate Agrees(s: State, x: Stamped) {
    match x.event
    case Ordered(id) => id in s.orders && s.orders[id].eventMs == x.at
    case Paid(id) => id in s.payments && s.payments[id].eventMs == x.at
    case _ => true
  }

  ghost predicate TimesAgree(s: State) {
    forall i :: 0 <= i < |s.log| ==> Agrees(s, s.log[i])
  }

  /** Nothing recorded is changed later. */
  ghost predicate KeepsRecords(s: State, t: State) {
    && (forall id :: id in s.orders ==> id in t.orders && t.orders[id] == s.orders[id])
    && (forall id :: id in s.payments ==> id in t.payments && t.payments[id] == s.payments[id])
  }

  lemma AgreeOneMore(s: State, t: State, x: Stamped)
    requires TimesAgree(s) && KeepsRecords(s, t) && t.log == s.log + [x] && Agrees(t, x)
    ensures TimesAgree(t)
  {
    forall i | 0 <= i < |t.log| ensures Agrees(t, t.log[i]) {
      if i < |s.log| {
        assert Agrees(s, s.log[i]);
      }
    }
  }

  lemma OrderAgrees(s: State, step: int, d: Draw)
    requires TimesAgree(s) && Numbered(s)
    ensures TimesAgree(OrderPart(s, step, d))
  {
    AgreeOneMore(s, PlaceOrder(s, step, d), Stamped(Ordered(s.orderId + 1), s.clock + step));
  }

  lemma PaymentAgrees(s: State, step: int, d: Draw)
    requires TimesAgree(s) && Numbered(s)
    ensures TimesAgree(MakePayment(s, step, d))
  {
    if s.iteration % 2 == 0 {
      AgreeOneMore(s, MakePayment(s, step, d), Stamped(Paid(s.paymentId + 1), s.clock + step));
    }
  }

  lemma AuditAgrees(s: State, step: int, d: Draw)
    requires TimesAgree(s)
    ensures TimesAgree(UpdateAudit(InsertAudit(s, step), step, d))
  {
    var t := InsertAudit(s, step);
    if s.iteration % 3 == 0 {
      AgreeOneMore(s, t, Stamped(Inserted(s.auditId + 1), s.clock + step));
    }
    if t.iteration % 5 == 0 && t.awaiting != [] {
      AgreeOneMore(t, UpdateAudit(t, step, d), Stamped(Updated(t.awaiting[|t.awaiting| - 1].0), t.clock + step));
    }
  }

  lemma {:induction false} RunAgrees(step: int, draws: seq<Draw>)
    requires step > 0
    ensures TimesAgree(Run(step, draws))
    decreases |draws|
  {
    if draws != [] {
      var init, d := draws[..|draws| - 1], draws[|draws| - 1];
      var s := Run(step, init);
      RunAgrees(step, init);
      RunKeepsInv(step, init);
      OrderPartKeeps(s, step, d);
      OrderAgrees(s, step, d);
      PaymentAgrees(OrderPart(s, step, d), step, d);
      AuditAgrees(MakePayment(OrderPart(s, step, d), step, d), step, d);
    }
  }

  /** The log entry behind an item. */
  lemma ItemIsLogged(s: State, price: Price, i: nat) returns (e: Event, at: nat)
    requires Numbered(s) && AuditInv(s) && TimesAgree(s) && i < |Items(s, price)|
    ensures e == if i < s.orderId then Ordered(i + 1) else Paid(i - s.orderId + 1)
    ensures at < |s.log| && s.log[at].event == e && s.log[at].at == Items(s, price)[i].eventMs
  {
    e := if i < s.orderId then Ordered(i + 1) else Paid(i - s.orderId + 1);
    assert e in Events(s.log);
    at := EventsAreLogged(s.log, e);
    assert Agrees(s, s.log[at]);
  }

  /** Every run records one item per order and one per payment, no two at the same time. */
  lemma ItemsAreDistinct(step: int, draws: seq<Draw>, price: Price)
    requires step > 0
    ensures var items := RunItems(step, draws, price);
      && |items| == |draws| + |draws| / 2
      && (forall i, j :: 0 <= i < j < |items| ==> items[i].eventMs != items[j].eventMs)
  {
    var s := Run(step, draws);
    RunKeepsInv(step, draws);
    RunAgrees(step, draws);
    forall i, j | 0 <= i < j < |Items(s, price)|
      ensures Items(s, price)[i].eventMs != Items(s, price)[j].eventMs
    {
      var d, m := ItemIsLogged(s, price, i);
      var e, n := ItemIsLogged(s, price, j);
      assert d != e;
      StampsDiffer(s, step, m, n);
    }
  }

  lemma StampsDiffer(s: State, step: int, m: nat, n: nat)
    requires step > 0 && Timed(s, step) && m < |s.log| && n < |s.log| && m != n
    ensures s.log[m].at != s.log[n].at
  {
    if m < n {
      StampsIncrease(s, step, m, n);
    } else {
      StampsIncrease(s, step, n, m);
    }
  }

  // ---------- from the publisher to the final check ----------

  lemma {:induction false} GroupOfItems(items: seq<Published>, k: Key, p: Published)
    ensures Group(items, k)[p] == if p.GroupKey() == k then multiset(items)[p] else 0
    decreases |items|
  {
    if items != [] {
      assert items == [items[0]] + items[1..];
      GroupOfItems(items[1..], k, p);
    }
  }

  lemma SameItemsSameGroups(a: seq<Published>, b: seq<Published>, k: Key)
    requires multiset(a) == multiset(b)
    ensures Group(a, k) == Group(b, k)
  {
    forall p ensures Group(a, k)[p] == Group(b, k)[p] {
      GroupOfItems(a, k, p);
      GroupOfItems(b, k, p);
    }
  }

  /**
    For every run, every grouping of its items into emissions, and every delivery
    of those emissions: the final check reports exactly the closed, past-warm-up
    groups of the run with an emission lost or alike to an earlier one.
  */
  lemma RunIsCheckedExactly(step: int, draws: seq<Draw>, price: Price, deliveries: seq<Delivery>, emissions: seq<Body>,
                            parts: seq<seq<seq<Published>>>, k: Key, warmupSecs: nat)
    requires step > 0
    requires Carries(deliveries, emissions) && Explained(emissions, parts)
    requires multiset(Delivered(parts)) == multiset(RunItems(step, draws, price))
    ensures
      var items, watermark := RunItems(step, draws, price), Run(step, draws).maxEventMs;
      Flagged(VerifyAll(Bodies(deliveries)), items, k, watermark, warmupSecs) <==>
        && Known(items, k) && Asserted(k, watermark, warmupSecs)
        && (Lost(deliveries, emissions, k) || Alike(emissions, k))
  {
    var items, watermark := RunItems(step, draws, price), Run(step, draws).maxEventMs;
    SameItemsSameGroups(Delivered(parts), items, k);
    if Known(items, k) && Asserted(k, watermark, warmupSecs) {
      FlaggedExactlyByEmission(deliveries, emissions, parts, items, k, watermark, warmupSecs);
    }
  }
}
