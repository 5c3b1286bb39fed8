/**
  What a run of the publisher leaves in the registry, record by record: every
  order, payment and audit change as a formula over the draws and the iteration
  that made it.
*/
module IntegrityRecords {
  import opened IntegrityClock
  import opened IntegrityPublisher
  import opened Sequences

  /** One order an iteration, a payment every second, an audit insert every third and an update every fifth. */
  function ItemsAfter(n: nat): nat {
    n + n / 2 + n / 3 + n / 5
  }

  /** The simulated time of the `k`-th item. */
  function TimeAt(step: int, k: nat): int {
    1_700_000_000_000 + step * k
  }

  lemma NextTime(step: int, k: nat)
    ensures TimeAt(step, k) + step == TimeAt(step, k + 1)
  {
  }

  /** Five orders of one kind, then five of the other. */
  function Kind(message: nat): string {
    if message % 2 == 0 then "express" else "standard"
  }

  // ---------- the records ----------

  /** What iteration `i` records first. */
  function OrderOf(step: int, i: nat, d: Draw): Order
    requires i > 0
  {
    Order(i, d.sku, d.qty, d.unitPrice, d.region, Kind((i - 1) / 5), TimeAt(step, ItemsAfter(i - 1) + 1))
  }

  function PaymentOf(step: int, i: nat, d: Draw): Payment
    requires i > 0
  {
    Payment(d.amount, d.paymentRegion, TimeAt(step, ItemsAfter(i - 1) + 2))
  }

  function InsertOf(step: int, i: nat): AuditChange
    requires i > 0
  {
    AuditChange(i, "placed", 1, TimeAt(step, ItemsAfter(i - 1) + (if i % 2 == 0 then 3 else 2)))
  }

  /** The newest insert is the one updated; it was made for the last order divisible by three. */
  function UpdateOf(step: int, i: nat, d: Draw): AuditChange
    requires i > 0
  {
    AuditChange(3 * (i / 3), d.status, 2, TimeAt(step, ItemsAfter(i)))
  }

  ghost predicate OrdersExact(orders: map<int, Order>, step: int, draws: seq<Draw>) {
    && (forall id :: id in orders <==> 1 <= id <= |draws|)
    && forall i :: 1 <= i <= |draws| ==> orders[i] == OrderOf(step, i, draws[i - 1])
  }

  ghost predicate PaymentsExact(payments: map<int, Payment>, step: int, draws: seq<Draw>) {
    && (forall id :: id in payments <==> 1 <= id <= |draws| / 2)
    && forall i :: 1 <= i <= |draws| / 2 ==> payments[i] == PaymentOf(step, 2 * i, draws[2 * i - 1])
  }

  ghost predicate InsertsExact(audits: map<(int, Op), AuditChange>, step: int, n: nat) {
    && (forall id :: (id, Insert) in audits <==> 1 <= id <= n / 3)
    && forall a :: 1 <= a <= n / 3 ==> audits[(a, Insert)] == InsertOf(step, 3 * a)
  }

  /** Insert `id` was the newest one at some iteration divisible by five. */
  ghost predicate Updating(id: int, n: nat) {
    exists u :: 1 <= u <= n / 5 && id == 5 * u / 3
  }

  ghost predicate UpdatesExact(audits: map<(int, Op), AuditChange>, step: int, draws: seq<Draw>) {
    && (forall id :: (id, Update) in audits <==> Updating(id, |draws|))
    && forall u :: 1 <= u <= |draws| / 5 ==> UpdateRecorded(audits, step, u, draws[5 * u - 1])
  }

  /** The `u`-th update is recorded. */
  ghost predicate UpdateRecorded(audits: map<(int, Op), AuditChange>, step: int, u: nat, d: Draw)
    requires u > 0
  {
    (5 * u / 3, Update) in audits && audits[(5 * u / 3, Update)] == UpdateOf(step, 5 * u, d)
  }

  // ---------- the loop's variables ----------

  /** After `n` iterations; an insert made since the last update is on top of the waiting list. */
  ghost predicate Progress(s: State, step: int, n: nat) {
    && s.iteration == n && s.orderId == n && s.paymentId == n / 2 && s.auditId == n / 3
    && s.clock == TimeAt(step, ItemsAfter(n))
    && |s.pending| == n % 5 && |s.messages| == n / 5 && s.pendingPriority == Kind(n / 5)
    && (3 * (n / 3) > 5 * (n / 5) ==> NewestWaits(s.awaiting, n))
  }

  ghost predicate NewestWaits(awaiting: seq<(int, int)>, n: nat) {
    awaiting != [] && awaiting[|awaiting| - 1] == (n / 3, 3 * (n / 3))
  }

  lemma PlaceStep(s: State, step: int, d: Draw, n: nat)
    requires Progress(s, step, n)
    ensures
      var t := PlaceOrder(s, step, d);
      && t.orders == s.orders[n + 1 := OrderOf(step, n + 1, d)]
      && t.clock == TimeAt(step, ItemsAfter(n) + 1)
      && t.iteration == n + 1 && t.orderId == n + 1 && |t.pending| == n % 5 + 1
      && t == s.(clock := t.clock, maxEventMs := t.maxEventMs, log := t.log, iteration := t.iteration,
                 orderId := t.orderId, pending := t.pending, orders := t.orders, generated := t.generated)
  {
    NextTime(step, ItemsAfter(n));
  }

  lemma FiveFill(n: nat)
    ensures n % 5 + 1 == 5 ==> (n + 1) % 5 == 0 && (n + 1) / 5 == n / 5 + 1
    ensures n % 5 + 1 != 5 ==> (n + 1) % 5 == n % 5 + 1 && (n + 1) / 5 == n / 5
  {
  }

  lemma SendStep(t: State, n: nat)
    requires |t.pending| == n % 5 + 1 && |t.messages| == n / 5 && t.pendingPriority == Kind(n / 5)
    ensures
      var u := SendIfFull(t);
      && |u.pending| == (n + 1) % 5 && |u.messages| == (n + 1) / 5 && u.pendingPriority == Kind((n + 1) / 5)
      && u == t.(pending := u.pending, messages := u.messages, pendingPriority := u.pendingPriority)
  {
    FiveFill(n);
  }

  lemma PaymentStep(t: State, step: int, d: Draw, n: nat)
    requires t.iteration == n + 1 && t.paymentId == n / 2 && t.clock == TimeAt(step, ItemsAfter(n) + 1)
    ensures
      var u := MakePayment(t, step, d);
      && u.payments == (if (n + 1) % 2 == 0 then t.payments[(n + 1) / 2 := PaymentOf(step, n + 1, d)] else t.payments)
      && u.clock == TimeAt(step, ItemsAfter(n) + (if (n + 1) % 2 == 0 then 2 else 1))
      && u.paymentId == (n + 1) / 2
      && u == t.(clock := u.clock, maxEventMs := u.maxEventMs, log := u.log, paymentId := u.paymentId, payments := u.payments)
  {
    NextTime(step, ItemsAfter(n) + 1);
  }

  lemma InsertStep(t: State, step: int, n: nat, k: nat)
    requires t.iteration == n + 1 && t.orderId == n + 1 && t.auditId == n / 3
    requires k == ItemsAfter(n) + (if (n + 1) % 2 == 0 then 2 else 1) && t.clock == TimeAt(step, k)
    ensures
      var u := InsertAudit(t, step);
      && u.audits == (if (n + 1) % 3 == 0 then t.audits[((n + 1) / 3, Insert) := InsertOf(step, n + 1)] else t.audits)
      && u.awaiting == (if (n + 1) % 3 == 0 then t.awaiting + [((n + 1) / 3, n + 1)] else t.awaiting)
      && u.clock == TimeAt(step, k + (if (n + 1) % 3 == 0 then 1 else 0))
      && u.auditId == (n + 1) / 3
      && u == t.(clock := u.clock, maxEventMs := u.maxEventMs, log := u.log, auditId := u.auditId,
                 audits := u.audits, awaiting := u.awaiting)
  {
    NextTime(step, k);
  }

  lemma UpdateStep(t: State, step: int, d: Draw, n: nat, k: nat)
    requires t.iteration == n + 1 && t.clock == TimeAt(step, k)
    requires (n + 1) % 5 == 0 ==> NewestWaits(t.awaiting, n + 1) && ItemsAfter(n + 1) == k + 1
    ensures
      var u := UpdateAudit(t, step, d);
      && u.audits == (if (n + 1) % 5 == 0 then t.audits[((n + 1) / 3, Update) := UpdateOf(step, n + 1, d)] else t.audits)
      && u.clock == TimeAt(step, k + (if (n + 1) % 5 == 0 then 1 else 0))
      && u.awaiting == (if (n + 1) % 5 == 0 then t.awaiting[..|t.awaiting| - 1] else t.awaiting)
      && u == t.(clock := u.clock, maxEventMs := u.maxEventMs, log := u.log, audits := u.audits, awaiting := u.awaiting)
  {
    NextTime(step, k);
  }

  /** Between two multiples of five there is one of three, so at every update an insert is waiting. */
  lemma InsertBetween(n: nat)
    ensures (n + 1) % 3 == 0 ==> (n + 1) / 3 == n / 3 + 1 && 3 * ((n + 1) / 3) == n + 1
    ensures (n + 1) % 3 != 0 ==> (n + 1) / 3 == n / 3
    ensures (n + 1) % 5 == 0 && (n + 1) % 3 != 0 ==> 3 * (n / 3) > 5 * (n / 5)
  {
  }

  /** The items of one iteration. */
  lemma ItemsOf(n: nat)
    ensures ItemsAfter(n + 1) ==
      ItemsAfter(n) + 1 + (if (n + 1) % 2 == 0 then 1 else 0) + (if (n + 1) % 3 == 0 then 1 else 0)
        + (if (n + 1) % 5 == 0 then 1 else 0)
  {
    OneMore(n, 2);
    OneMore(n, 3);
    OneMore(n, 5);
  }

  lemma OneMore(n: nat, k: nat)
    requires k == 2 || k == 3 || k == 5
    ensures (n + 1) / k == n / k + (if (n + 1) % k == 0 then 1 else 0)
  {
    if k == 2 {
      assert (n + 1) / 2 == n / 2 + (if (n + 1) % 2 == 0 then 1 else 0);
    } else if k == 3 {
      assert (n + 1) / 3 == n / 3 + (if (n + 1) % 3 == 0 then 1 else 0);
    } else {
      assert (n + 1) / 5 == n / 5 + (if (n + 1) % 5 == 0 then 1 else 0);
    }
  }

  /** What the audit phases of iteration `n + 1` make of the registry. */
  function AuditsAfter(audits: map<(int, Op), AuditChange>, step: int, n: nat, d: Draw): map<(int, Op), AuditChange> {
    var inserted := if (n + 1) % 3 == 0 then audits[((n + 1) / 3, Insert) := InsertOf(step, n + 1)] else audits;
    if (n + 1) % 5 == 0 then inserted[((n + 1) / 3, Update) := UpdateOf(step, n + 1, d)] else inserted
  }

  /** Iteration `n + 1`, record by record. */
  ghost predicate Recorded(s: State, t: State, step: int, n: nat, d: Draw) {
    && t.orders == s.orders[n + 1 := OrderOf(step, n + 1, d)]
    && t.payments == (if (n + 1) % 2 == 0 then s.payments[(n + 1) / 2 := PaymentOf(step, n + 1, d)] else s.payments)
    && t.audits == AuditsAfter(s.audits, step, n, d)
  }

  lemma NewestAfter(before: seq<(int, int)>, after: seq<(int, int)>, n: nat)
    requires 3 * (n / 3) > 5 * (n / 5) ==> NewestWaits(before, n)
    requires after == if (n + 1) % 3 == 0 then before + [((n + 1) / 3, n + 1)] else before
    ensures (n + 1) % 5 == 0 ==> NewestWaits(after, n + 1)
    ensures (n + 1) % 5 != 0 && 3 * ((n + 1) / 3) > 5 * ((n + 1) / 5) ==> NewestWaits(after, n + 1)
  {
    InsertBetween(n);
    FiveFill(n);
  }

  /** The state between the order of iteration `n + 1` and the rest of it. */
  ghost predicate Placed(s: State, t: State, step: int, n: nat, d: Draw) {
    && t.orders == s.orders[n + 1 := OrderOf(step, n + 1, d)] && t.payments == s.payments && t.audits == s.audits
    && t.iteration == n + 1 && t.orderId == n + 1 && t.paymentId == n / 2 && t.auditId == n / 3
    && t.clock == TimeAt(step, ItemsAfter(n) + 1) && t.awaiting == s.awaiting
    && |t.pending| == (n + 1) % 5 && |t.messages| == (n + 1) / 5 && t.pendingPriority == Kind((n + 1) / 5)
  }

  lemma OrderPartStep(s: State, step: int, d: Draw, n: nat)
    requires Progress(s, step, n)
    ensures Placed(s, OrderPart(s, step, d), step, n, d)
  {
    PlaceStep(s, step, d, n);
    SendStep(PlaceOrder(s, step, d), n);
  }

  /** The state between the audit insert of iteration `n + 1` and its update. */
  ghost predicate Inserting(s: State, t: State, step: int, n: nat, d: Draw, k: nat) {
    && t.orders == s.orders[n + 1 := OrderOf(step, n + 1, d)]
    && t.payments == (if (n + 1) % 2 == 0 then s.payments[(n + 1) / 2 := PaymentOf(step, n + 1, d)] else s.payments)
    && t.audits == (if (n + 1) % 3 == 0 then s.audits[((n + 1) / 3, Insert) := InsertOf(step, n + 1)] else s.audits)
    && t.awaiting == (if (n + 1) % 3 == 0 then s.awaiting + [((n + 1) / 3, n + 1)] else s.awaiting)
    && t.iteration == n + 1 && t.orderId == n + 1 && t.paymentId == (n + 1) / 2 && t.auditId == (n + 1) / 3
    && t.clock == TimeAt(step, k)
    && |t.pending| == (n + 1) % 5 && |t.messages| == (n + 1) / 5 && t.pendingPriority == Kind((n + 1) / 5)
  }

  lemma MiddleStep(s: State, t: State, step: int, d: Draw, n: nat, j: nat, k: nat)
    requires Placed(s, t, step, n, d)
    requires j == ItemsAfter(n) + (if (n + 1) % 2 == 0 then 2 else 1) && k == j + (if (n + 1) % 3 == 0 then 1 else 0)
    ensures Inserting(s, InsertAudit(MakePayment(t, step, d), step), step, n, d, k)
  {
    PaymentStep(t, step, d, n);
    InsertStep(MakePayment(t, step, d), step, n, j);
  }

  lemma LastRecords(s: State, t: State, step: int, d: Draw, n: nat, k: nat)
    requires Progress(s, step, n) && Inserting(s, t, step, n, d, k)
    requires ItemsAfter(n + 1) == k + (if (n + 1) % 5 == 0 then 1 else 0)
    ensures Recorded(s, UpdateAudit(t, step, d), step, n, d)
  {
    NewestAfter(s.awaiting, t.awaiting, n);
    UpdateStep(t, step, d, n, k);
  }

  /** Right after an update no newer insert is waiting, and none has to be. */
  lemma NothingNewer(n: nat)
    ensures n % 5 == 0 ==> 3 * (n / 3) <= 5 * (n / 5)
  {
  }

  lemma LastProgress(s: State, t: State, step: int, d: Draw, n: nat, k: nat)
    requires Progress(s, step, n) && Inserting(s, t, step, n, d, k)
    requires ItemsAfter(n + 1) == k + (if (n + 1) % 5 == 0 then 1 else 0)
    ensures Progress(UpdateAudit(t, step, d), step, n + 1)
  {
    var u := UpdateAudit(t, step, d);
    NewestAfter(s.awaiting, t.awaiting, n);
    UpdateStep(t, step, d, n, k);
    NothingNewer(n + 1);
    Progresses(u, step, n + 1);
  }

  lemma Progresses(u: State, step: int, n: nat)
    requires u.iteration == n && u.orderId == n && u.paymentId == n / 2 && u.auditId == n / 3
    requires u.clock == TimeAt(step, ItemsAfter(n))
    requires |u.pending| == n % 5 && |u.messages| == n / 5 && u.pendingPriority == Kind(n / 5)
    requires 3 * (n / 3) > 5 * (n / 5) ==> NewestWaits(u.awaiting, n)
    ensures Progress(u, step, n)
  {
  }

  lemma IterationRecords(s: State, step: int, d: Draw, n: nat)
    requires Progress(s, step, n)
    ensures Recorded(s, Iterate(s, step, d), step, n, d) && Progress(Iterate(s, step, d), step, n + 1)
  {
    var j := ItemsAfter(n) + (if (n + 1) % 2 == 0 then 2 else 1);
    var k := j + (if (n + 1) % 3 == 0 then 1 else 0);
    var placed := OrderPart(s, step, d);
    OrderPartStep(s, step, d, n);
    MiddleStep(s, placed, step, d, n, j, k);
    ItemsOf(n);
    LastRecords(s, InsertAudit(MakePayment(placed, step, d), step), step, d, n, k);
    LastProgress(s, InsertAudit(MakePayment(placed, step, d), step), step, d, n, k);
  }

  // ---------- the whole registry ----------

  lemma OrdersMore(orders: map<int, Order>, step: int, init: seq<Draw>, d: Draw)
    requires OrdersExact(orders, step, init)
    ensures OrdersExact(orders[|init| + 1 := OrderOf(step, |init| + 1, d)], step, init + [d])
  {
  }

  lemma PaymentsMore(payments: map<int, Payment>, step: int, init: seq<Draw>, d: Draw)
    requires PaymentsExact(payments, step, init)
    ensures (|init| + 1) % 2 == 0 ==>
      PaymentsExact(payments[(|init| + 1) / 2 := PaymentOf(step, |init| + 1, d)], step, init + [d])
    ensures (|init| + 1) % 2 != 0 ==> PaymentsExact(payments, step, init + [d])
  {
    var n := |init|;
    assert (n + 1) % 2 == 0 ==> (n + 1) / 2 == n / 2 + 1 && 2 * ((n + 1) / 2) == n + 1;
    assert (n + 1) % 2 != 0 ==> (n + 1) / 2 == n / 2;
  }

  lemma InsertsMore(audits: map<(int, Op), AuditChange>, step: int, n: nat, d: Draw)
    requires InsertsExact(audits, step, n)
    ensures InsertsExact(AuditsAfter(audits, step, n, d), step, n + 1)
  {
    InsertBetween(n);
    var after := AuditsAfter(audits, step, n, d);
    forall id ensures (id, Insert) in after <==> (id, Insert) in audits || ((n + 1) % 3 == 0 && id == (n + 1) / 3) {
    }
  }

  lemma UpdatesApart(u: nat, v: nat)
    requires u < v
    ensures 5 * u / 3 < 5 * v / 3
  {
  }

  lemma UpdatingMore(id: int, n: nat)
    ensures Updating(id, n + 1) <==> Updating(id, n) || ((n + 1) % 5 == 0 && id == (n + 1) / 3)
  {
    FiveFill(n);
    if (n + 1) % 5 == 0 {
      assert 5 * ((n + 1) / 5) == n + 1;
    }
  }

  lemma UpdatesMore(audits: map<(int, Op), AuditChange>, step: int, init: seq<Draw>, d: Draw)
    requires UpdatesExact(audits, step, init)
    ensures UpdatesExact(AuditsAfter(audits, step, |init|, d), step, init + [d])
  {
    var n, after := |init|, AuditsAfter(audits, step, |init|, d);
    FiveFill(n);
    forall id ensures (id, Update) in after <==> Updating(id, n + 1) {
      UpdatingMore(id, n);
    }
    forall u | 1 <= u <= (n + 1) / 5 ensures UpdateRecorded(after, step, u, (init + [d])[5 * u - 1]) {
      if u <= n / 5 {
        assert UpdateRecorded(audits, step, u, init[5 * u - 1]);
        if (n + 1) % 5 == 0 {
          UpdatesApart(u, (n + 1) / 5);
        }
      }
    }
  }

  lemma StartTime(step: int)
    ensures ItemsAfter(0) == 0 && TimeAt(step, 0) == BASE_TS_MS
  {
  }

  lemma StartKind()
    ensures START.pendingPriority == Kind(0)
  {
  }

  lemma StartProgresses(s: State, step: int)
    requires s.clock == BASE_TS_MS && s.iteration == s.orderId == s.paymentId == s.auditId == 0
    requires s.pending == [] && s.messages == [] && s.pendingPriority == Kind(0)
    ensures Progress(s, step, 0)
  {
    StartTime(step);
  }

  lemma {:induction false} RunProgresses(step: int, draws: seq<Draw>)
    ensures Progress(Run(step, draws), step, |draws|)
    decreases |draws|
  {
    if draws == [] {
      StartKind();
      StartProgresses(START, step);
    } else {
      var init, d := draws[..|draws| - 1], draws[|draws| - 1];
      RunProgresses(step, init);
      IterationRecords(Run(step, init), step, d, |init|);
    }
  }

  /** The registry after a run, as formulas over the draws. */
  ghost predicate Exact(s: State, step: int, draws: seq<Draw>) {
    && OrdersExact(s.orders, step, draws) && PaymentsExact(s.payments, step, draws)
    && InsertsExact(s.audits, step, |draws|) && UpdatesExact(s.audits, step, draws)
  }

  lemma NothingRecorded(step: int)
    ensures Exact(START, step, [])
  {
    forall id ensures !Updating(id, 0) {
    }
  }

  lemma RecordsMore(s: State, t: State, step: int, init: seq<Draw>, d: Draw)
    requires Exact(s, step, init) && Recorded(s, t, step, |init|, d)
    ensures Exact(t, step, init + [d])
  {
    OrdersMore(s.orders, step, init, d);
    PaymentsMore(s.payments, step, init, d);
    InsertsMore(s.audits, step, |init|, d);
    UpdatesMore(s.audits, step, init, d);
  }

  /**
    After any run the registry holds exactly these records: of every iteration its
    order, of every second one a payment, of every third one an insert, and of every
    fifth one the update of the newest insert, each with its draw and its own time.
  */
  lemma {:induction false} RecordsAreExact(step: int, draws: seq<Draw>)
    ensures Exact(Run(step, draws), step, draws)
    decreases |draws|
  {
    if draws == [] {
      NothingRecorded(step);
    } else {
      var init, d := draws[..|draws| - 1], draws[|draws| - 1];
      RecordsAreExact(step, init);
      RunProgresses(step, init);
      IterationRecords(Run(step, init), step, d, |init|);
      RecordsMore(Run(step, init), Run(step, draws), step, init, d);
      SplitLast(draws);
    }
  }

  /** The check's watermark is the time of the run's last item. */
  lemma WatermarkIsLast(step: int, draws: seq<Draw>)
    requires step > 0 && draws != []
    ensures Run(step, draws).maxEventMs == TimeAt(step, ItemsAfter(|draws|))
  {
    var s := Run(step, draws);
    RunKeepsInv(step, draws);
    RunProgresses(step, draws);
    LaterThanStart(step, ItemsAfter(|draws|));
  }

  lemma LaterThanStart(step: int, k: nat)
    requires step > 0 && k > 0
    ensures TimeAt(step, k) > BASE_TS_MS
  {
  }
}
