/**
  The publish loop of the integrity run: orders packed into messages of one
  priority each, payments, audit inserts and later updates, all stamped by one
  simulated clock and recorded for the verification that follows.

  Random draws are inputs. Money is in integer cents. A run is as many
  iterations as there were draws before the deadline or the interrupt.
*/
module IntegrityPublisher {
  import opened IntegrityClock
  import opened Sequences

  const ORDERS_PER_MESSAGE: nat := 5

  function Priority(message: nat): string {
    if message % 2 == 0 then "express" else "standard"
  }

  /** What the random generator yields for one iteration. */
  datatype Draw = Draw(
    sku: string, qty: int, unitPrice: int, region: string,
    amount: int, paymentRegion: string, status: string)

  datatype Order = Order(id: int, sku: string, qty: int, unitPrice: int, region: string, priority: string, eventMs: int)

  datatype Payment = Payment(amount: int, region: string, eventMs: int)

  datatype Op = Insert | Update

  datatype AuditChange = AuditChange(orderId: int, status: string, revision: int, changedMs: int)

  datatype Message = Message(key: string, orders: seq<Order>)

  datatype Event = Ordered(id: int) | Paid(id: int) | Inserted(id: int) | Updated(id: int)

  datatype Stamped = Stamped(event: Event, at: int)

  /** The loop's variables, the registry it fills, and the history of what it published. */
  datatype State = State(
    clock: int,
    iteration: nat,
    orderId: nat,
    paymentId: nat,
    auditId: nat,
    pending: seq<Order>,
    pendingPriority: string,
    awaiting: seq<(int, int)>,
    messages: seq<Message>,
    orders: map<int, Order>,
    payments: map<int, Payment>,
    audits: map<(int, Op), AuditChange>,
    maxEventMs: int,
    log: seq<Stamped>,
    generated: seq<Order>)

  const START := State(BASE_TS_MS, 0, 0, 0, 0, [], Priority(0), [], [], map[], map[], map[], 0, [], [])

  // ---------- one iteration ----------

  function Max(a: int, b: int): int { if a >= b then a else b }

  /** The clock advances for every item, and the registry's high-water mark follows it. */
  function Tick(s: State, step: int, event: Event): State {
    var clock := s.clock + step;
    s.(clock := clock, maxEventMs := Max(s.maxEventMs, clock), log := s.log + [Stamped(event, clock)])
  }

  /** An iteration opens with one order, of the priority the current message carries. */
  function PlaceOrder(s: State, step: int, d: Draw): State {
    var t := Tick(s, step, Ordered(s.orderId + 1));
    var order := Order(s.orderId + 1, d.sku, d.qty, d.unitPrice, d.region, s.pendingPriority, t.clock);
    t.(iteration := s.iteration + 1,
       orderId := s.orderId + 1,
       pending := s.pending + [order],
       orders := s.orders[order.id := order],
       generated := s.generated + [order])
  }

  function SendIfFull(s: State): State {
    if |s.pending| != ORDERS_PER_MESSAGE then s
    else
      s.(messages := s.messages + [Message(s.pendingPriority, s.pending)],
         pending := [],
         pendingPriority := Priority(|s.messages| + 1))
  }

  function MakePayment(s: State, step: int, d: Draw): State {
    if s.iteration % 2 != 0 then s
    else
      var t := Tick(s, step, Paid(s.paymentId + 1));
      t.(paymentId := s.paymentId + 1,
         payments := s.payments[s.paymentId + 1 := Payment(d.amount, d.paymentRegion, t.clock)])
  }

  function InsertAudit(s: State, step: int): State {
    if s.iteration % 3 != 0 then s
    else
      var t := Tick(s, step, Inserted(s.auditId + 1));
      t.(auditId := s.auditId + 1,
         audits := s.audits[(s.auditId + 1, Insert) := AuditChange(s.orderId, "placed", 1, t.clock)],
         awaiting := s.awaiting + [(s.auditId + 1, s.orderId)])
  }

  /** The most recent insert still waiting is updated. */
  function UpdateAudit(s: State, step: int, d: Draw): State {
    if s.iteration % 5 != 0 || s.awaiting == [] then s
    else
      var (id, order) := s.awaiting[|s.awaiting| - 1];
      var t := Tick(s, step, Updated(id));
      t.(awaiting := s.awaiting[..|s.awaiting| - 1],
         audits := s.audits[(id, Update) := AuditChange(order, d.status, 2, t.clock)])
  }

  function OrderPart(s: State, step: int, d: Draw): State {
    SendIfFull(PlaceOrder(s, step, d))
  }

  function RestPart(s: State, step: int, d: Draw): State {
    UpdateAudit(InsertAudit(MakePayment(s, step, d), step), step, d)
  }

  function Iterate(s: State, step: int, d: Draw): State {
    RestPart(OrderPart(s, step, d), step, d)
  }

  function Run(step: int, draws: seq<Draw>): State {
    if draws == [] then START else Iterate(Run(step, draws[..|draws| - 1]), step, draws[|draws| - 1])
  }

  /** Whatever is left when the loop ends is still one message of one priority. */
  function AllMessages(s: State): seq<Message> {
    if s.pending == [] then s.messages else s.messages + [Message(s.pendingPriority, s.pending)]
  }

  // ---------- the invariant ----------

  function Contents(messages: seq<Message>): seq<Order> {
    if messages == [] then [] else Contents(messages[..|messages| - 1]) + messages[|messages| - 1].orders
  }

  ghost predicate OnePriority(orders: seq<Order>, priority: string) {
    forall i :: 0 <= i < |orders| ==> orders[i].priority == priority
  }

  /** Every message sent is full, of the priority its number gives. */
  ghost predicate Filled(messages: seq<Message>) {
    forall i :: 0 <= i < |messages| ==>
      && |messages[i].orders| == ORDERS_PER_MESSAGE && messages[i].key == Priority(i)
      && OnePriority(messages[i].orders, messages[i].key)
  }

  ghost predicate Packed(s: State) {
    && Contents(s.messages) + s.pending == s.generated
    && Filled(s.messages)
    && s.pendingPriority == Priority(|s.messages|) && OnePriority(s.pending, s.pendingPriority)
    && |s.generated| == ORDERS_PER_MESSAGE * |s.messages| + |s.pending|
  }

  ghost predicate Numbered(s: State) {
    && s.orderId == |s.generated|
    && (forall i :: i in s.orders <==> 1 <= i <= s.orderId)
    && (forall i :: 0 <= i < |s.generated| ==>
      && s.generated[i].id == i + 1 && s.generated[i].id in s.orders
      && s.orders[s.generated[i].id] == s.generated[i])
    && (forall i :: i in s.payments <==> 1 <= i <= s.paymentId)
  }

  /** The clock after `n` items. */
  function TimeOf(step: int, n: nat): int {
    if n == 0 then BASE_TS_MS else TimeOf(step, n - 1) + step
  }

  lemma {:induction false} TimeIncreases(step: int, m: nat, n: nat)
    requires step > 0 && m < n
    ensures BASE_TS_MS <= TimeOf(step, m) < TimeOf(step, n)
    decreases n
  {
    if m < n - 1 {
      TimeIncreases(step, m, n - 1);
    } else if m > 0 {
      TimeIncreases(step, 0, m);
    }
  }

  /** The clock is a function of the count of items so far, and is stamped on each. */
  ghost predicate Timed(s: State, step: int) {
    && s.clock == TimeOf(step, |s.log|)
    && s.maxEventMs == (if s.log == [] then 0 else s.clock)
    && forall i :: 0 <= i < |s.log| ==> s.log[i].at == TimeOf(step, i + 1)
  }

  function Events(log: seq<Stamped>): set<Event> {
    if log == [] then {} else Events(log[..|log| - 1]) + {log[|log| - 1].event}
  }

  /** Every update follows the insert of its audit row, and no event happens twice. */
  ghost predicate Ordering(log: seq<Stamped>) {
    log != [] ==>
      var init, e := log[..|log| - 1], log[|log| - 1].event;
      && Ordering(init) && e !in Events(init)
      && (e.Updated? ==> Inserted(e.id) in Events(init))
  }

  /** What the counters, the waiting list and the audit registry say about the events so far. */
  ghost predicate Audited(events: set<Event>, orderId: nat, paymentId: nat, auditId: nat,
                          awaiting: seq<(int, int)>, audits: map<(int, Op), AuditChange>)
  {
    && (forall id :: Ordered(id) in events <==> 1 <= id <= orderId)
    && (forall id :: Paid(id) in events <==> 1 <= id <= paymentId)
    && (forall id :: Inserted(id) in events <==> 1 <= id <= auditId)
    && (forall id :: Updated(id) in events ==> 1 <= id <= auditId)
    && (forall k :: 0 <= k < |awaiting| ==> 1 <= awaiting[k].0 <= auditId && Updated(awaiting[k].0) !in events)
    && (forall j, k :: 0 <= j < k < |awaiting| ==> awaiting[j].0 != awaiting[k].0)
    && (forall id :: (id, Insert) in audits <==> 1 <= id <= auditId)
    && (forall id :: (id, Update) in audits <==> Updated(id) in events)
  }

  ghost predicate AuditInv(s: State) {
    Ordering(s.log) && Audited(Events(s.log), s.orderId, s.paymentId, s.auditId, s.awaiting, s.audits)
  }

  ghost predicate Inv(s: State, step: int) {
    Packed(s) && Numbered(s) && Timed(s, step) && AuditInv(s)
  }

  // ---------- every step keeps it ----------

  lemma LogGrows(log: seq<Stamped>, x: Stamped)
    ensures Events(log + [x]) == Events(log) + {x.event}
    ensures Ordering(log) && x.event !in Events(log) && (x.event.Updated? ==> Inserted(x.event.id) in Events(log)) ==>
      Ordering(log + [x])
  {
    assert (log + [x])[..|log|] == log;
  }

  lemma TickKeepsTime(s: State, step: int, e: Event)
    requires Timed(s, step) && step > 0
    ensures Timed(Tick(s, step, e), step)
  {
    if s.log != [] {
      TimeIncreases(step, 0, |s.log|);
    }
  }

  lemma PlaceOrderPacks(s: State, step: int, d: Draw)
    requires Packed(s)
    ensures Packed(PlaceOrder(s, step, d))
  {
    var t := PlaceOrder(s, step, d);
    var order := t.pending[|s.pending|];
    assert Contents(s.messages) + s.pending + [order] == Contents(s.messages) + (s.pending + [order]);
  }

  lemma OrderedAudits(events: set<Event>, o: nat, p: nat, a: nat, waiting: seq<(int, int)>, audits: map<(int, Op), AuditChange>)
    requires Audited(events, o, p, a, waiting, audits)
    ensures Ordered(o + 1) !in events && Audited(events + {Ordered(o + 1)}, o + 1, p, a, waiting, audits)
  {
  }

  lemma PaidAudits(events: set<Event>, o: nat, p: nat, a: nat, waiting: seq<(int, int)>, audits: map<(int, Op), AuditChange>)
    requires Audited(events, o, p, a, waiting, audits)
    ensures Paid(p + 1) !in events && Audited(events + {Paid(p + 1)}, o, p + 1, a, waiting, audits)
  {
  }

  lemma InsertedAudits(events: set<Event>, o: nat, p: nat, a: nat, waiting: seq<(int, int)>,
                       audits: map<(int, Op), AuditChange>, order: int, c: AuditChange)
    requires Audited(events, o, p, a, waiting, audits)
    ensures Inserted(a + 1) !in events
    ensures Audited(events + {Inserted(a + 1)}, o, p, a + 1, waiting + [(a + 1, order)], audits[(a + 1, Insert) := c])
  {
  }

  lemma UpdatedAudits(events: set<Event>, o: nat, p: nat, a: nat, waiting: seq<(int, int)>,
                      audits: map<(int, Op), AuditChange>, c: AuditChange)
    requires Audited(events, o, p, a, waiting, audits) && waiting != []
    ensures var id := waiting[|waiting| - 1].0;
      && Updated(id) !in events && Inserted(id) in events
      && Audited(events + {Updated(id)}, o, p, a, waiting[..|waiting| - 1], audits[(id, Update) := c])
  {
  }

  lemma PlaceOrderAudits(s: State, step: int, d: Draw)
    requires AuditInv(s)
    ensures AuditInv(PlaceOrder(s, step, d))
  {
    LogGrows(s.log, Stamped(Ordered(s.orderId + 1), s.clock + step));
    OrderedAudits(Events(s.log), s.orderId, s.paymentId, s.auditId, s.awaiting, s.audits);
  }

  lemma PlaceOrderKeeps(s: State, step: int, d: Draw)
    requires Inv(s, step) && step > 0
    ensures Inv(PlaceOrder(s, step, d), step)
  {
    TickKeepsTime(s, step, Ordered(s.orderId + 1));
    PlaceOrderPacks(s, step, d);
    PlaceOrderAudits(s, step, d);
  }

  lemma SendPacks(s: State)
    requires Packed(s)
    ensures Packed(SendIfFull(s))
  {
    if |s.pending| == ORDERS_PER_MESSAGE {
      SentContents(s.messages, Message(s.pendingPriority, s.pending));
      FilledSnoc(s.messages, Message(s.pendingPriority, s.pending));
    }
  }

  lemma SentContents(messages: seq<Message>, m: Message)
    ensures Contents(messages + [m]) + [] == Contents(messages) + m.orders
  {
    ContentsSnoc(messages, m);
    Regroup(Contents(messages), m.orders, []);
  }

  lemma FilledSnoc(messages: seq<Message>, m: Message)
    requires Filled(messages)
    requires |m.orders| == ORDERS_PER_MESSAGE && m.key == Priority(|messages|) && OnePriority(m.orders, m.key)
    ensures Filled(messages + [m])
  {
  }

  lemma ContentsSnoc(messages: seq<Message>, m: Message)
    ensures Contents(messages + [m]) == Contents(messages) + m.orders
  {
    assert (messages + [m])[..|messages|] == messages;
  }

  lemma SendKeeps(s: State, step: int)
    requires Inv(s, step)
    ensures Inv(SendIfFull(s), step)
    ensures |s.pending| <= ORDERS_PER_MESSAGE ==> |SendIfFull(s).pending| < ORDERS_PER_MESSAGE
  {
    SendPacks(s);
  }

  lemma PaymentAudits(s: State, step: int, d: Draw)
    requires AuditInv(s)
    ensures AuditInv(MakePayment(s, step, d))
  {
    LogGrows(s.log, Stamped(Paid(s.paymentId + 1), s.clock + step));
    PaidAudits(Events(s.log), s.orderId, s.paymentId, s.auditId, s.awaiting, s.audits);
  }

  lemma PaymentPacks(s: State, step: int, d: Draw)
    requires Packed(s)
    ensures Packed(MakePayment(s, step, d))
  {
  }

  lemma PaymentNumbers(s: State, step: int, d: Draw)
    requires Numbered(s)
    ensures Numbered(MakePayment(s, step, d))
  {
  }

  lemma PaymentTimes(s: State, step: int, d: Draw)
    requires Timed(s, step) && step > 0
    ensures Timed(MakePayment(s, step, d), step)
  {
    TickKeepsTime(s, step, Paid(s.paymentId + 1));
  }

  lemma PaymentKeeps(s: State, step: int, d: Draw)
    requires Inv(s, step) && step > 0
    ensures Inv(MakePayment(s, step, d), step)
  {
    PaymentPacks(s, step, d);
    PaymentNumbers(s, step, d);
    PaymentTimes(s, step, d);
    PaymentAudits(s, step, d);
  }

  lemma InsertAudits(s: State, step: int)
    requires AuditInv(s)
    ensures AuditInv(InsertAudit(s, step))
  {
    LogGrows(s.log, Stamped(Inserted(s.auditId + 1), s.clock + step));
    InsertedAudits(Events(s.log), s.orderId, s.paymentId, s.auditId, s.awaiting, s.audits, s.orderId,
                   AuditChange(s.orderId, "placed", 1, s.clock + step));
  }

  lemma InsertKeeps(s: State, step: int)
    requires Inv(s, step) && step > 0
    ensures Inv(InsertAudit(s, step), step)
  {
    TickKeepsTime(s, step, Inserted(s.auditId + 1));
    InsertAudits(s, step);
  }

  lemma UpdateAudits(s: State, step: int, d: Draw)
    requires AuditInv(s)
    ensures AuditInv(UpdateAudit(s, step, d))
  {
    if s.iteration % 5 == 0 && s.awaiting != [] {
      var (id, order) := s.awaiting[|s.awaiting| - 1];
      LogGrows(s.log, Stamped(Updated(id), s.clock + step));
      UpdatedAudits(Events(s.log), s.orderId, s.paymentId, s.auditId, s.awaiting, s.audits,
                    AuditChange(order, d.status, 2, s.clock + step));
    }
  }

  lemma UpdateKeeps(s: State, step: int, d: Draw)
    requires Inv(s, step) && step > 0
    ensures Inv(UpdateAudit(s, step, d), step)
  {
    if s.iteration % 5 == 0 && s.awaiting != [] {
      TickKeepsTime(s, step, Updated(s.awaiting[|s.awaiting| - 1].0));
    }
    UpdateAudits(s, step, d);
  }

  /** How many of each there are, from the iteration count alone. */
  ghost predicate Counted(s: State) {
    && s.orderId == s.iteration && s.paymentId == s.iteration / 2 && s.auditId == s.iteration / 3
    && |s.pending| < ORDERS_PER_MESSAGE
  }

  lemma OrderPartKeeps(s: State, step: int, d: Draw)
    requires Inv(s, step) && step > 0
    ensures Inv(OrderPart(s, step, d), step)
  {
    PlaceOrderKeeps(s, step, d);
    SendKeeps(PlaceOrder(s, step, d), step);
  }

  lemma RestKeeps(s: State, step: int, d: Draw)
    requires Inv(s, step) && step > 0
    ensures Inv(RestPart(s, step, d), step)
  {
    PaymentKeeps(s, step, d);
    var t := MakePayment(s, step, d);
    InsertKeeps(t, step);
    UpdateKeeps(InsertAudit(t, step), step, d);
  }

  lemma IterationKeeps(s: State, step: int, d: Draw)
    requires Inv(s, step) && step > 0
    ensures Inv(Iterate(s, step, d), step)
  {
    OrderPartKeeps(s, step, d);
    RestKeeps(OrderPart(s, step, d), step, d);
  }

  lemma IterationCounts(s: State, step: int, d: Draw)
    requires Counted(s)
    ensures Counted(Iterate(s, step, d)) && Iterate(s, step, d).iteration == s.iteration + 1
  {
  }

  lemma {:induction false} RunKeepsInv(step: int, draws: seq<Draw>)
    requires step > 0
    ensures Inv(Run(step, draws), step) && Counted(Run(step, draws)) && Run(step, draws).iteration == |draws|
    decreases |draws|
  {
    if draws != [] {
      RunKeepsInv(step, draws[..|draws| - 1]);
      IterationKeeps(Run(step, draws[..|draws| - 1]), step, draws[|draws| - 1]);
      IterationCounts(Run(step, draws[..|draws| - 1]), step, draws[|draws| - 1]);
    }
  }

  // ---------- the main results ----------

  /**
    After any run: the messages, final flush included, concatenate to exactly the
    generated orders in id order; each holds one to five orders of the priority it
    is keyed by; and there is one message per five orders or part thereof.
  */
  lemma MessagesCarryEveryOrderOnce(step: int, draws: seq<Draw>)
    requires step > 0
    ensures var s := Run(step, draws); var all := AllMessages(s);
      && Contents(all) == s.generated && |s.generated| == |draws|
      && (forall i :: 0 <= i < |s.generated| ==> s.generated[i].id == i + 1)
      && (forall i :: 0 <= i < |all| ==>
        && 1 <= |all[i].orders| <= ORDERS_PER_MESSAGE && all[i].key == Priority(i)
        && OnePriority(all[i].orders, all[i].key))
      && |all| == (|draws| + ORDERS_PER_MESSAGE - 1) / ORDERS_PER_MESSAGE
  {
    RunKeepsInv(step, draws);
    FlushPacks(Run(step, draws));
  }

  lemma FlushPacks(s: State)
    requires Packed(s) && |s.pending| < ORDERS_PER_MESSAGE
    ensures var all := AllMessages(s);
      && Contents(all) == s.generated
      && (forall i :: 0 <= i < |all| ==>
        && 1 <= |all[i].orders| <= ORDERS_PER_MESSAGE && all[i].key == Priority(i)
        && OnePriority(all[i].orders, all[i].key))
      && |all| == (|s.generated| + ORDERS_PER_MESSAGE - 1) / ORDERS_PER_MESSAGE
  {
    var all := AllMessages(s);
    if s.pending == [] {
      assert Contents(s.messages) + [] == Contents(s.messages);
    } else {
      assert all[..|all| - 1] == s.messages;
    }
  }

  /** Timestamps strictly increase item by item, so no two items share one. */
  lemma TimestampsIncrease(step: int, draws: seq<Draw>, i: nat, j: nat)
    requires step > 0 && i < j < |Run(step, draws).log|
    ensures BASE_TS_MS < Run(step, draws).log[i].at < Run(step, draws).log[j].at <= Run(step, draws).maxEventMs
  {
    RunKeepsInv(step, draws);
    StampsIncrease(Run(step, draws), step, i, j);
  }

  lemma StampsIncrease(s: State, step: int, i: nat, j: nat)
    requires step > 0 && Timed(s, step) && i < j < |s.log|
    ensures BASE_TS_MS < s.log[i].at < s.log[j].at <= s.maxEventMs
  {
    TimeIncreases(step, 0, i + 1);
    TimeIncreases(step, i + 1, j + 1);
    if j + 1 < |s.log| {
      TimeIncreases(step, j + 1, |s.log|);
    }
  }

  lemma {:induction false} EventsAreLogged(log: seq<Stamped>, e: Event) returns (i: nat)
    requires e in Events(log)
    ensures i < |log| && log[i].event == e
  {
    if log[|log| - 1].event == e {
      i := |log| - 1;
    } else {
      i := EventsAreLogged(log[..|log| - 1], e);
    }
  }

  lemma {:induction false} LoggedAreEvents(log: seq<Stamped>, i: nat)
    requires i < |log|
    ensures log[i].event in Events(log)
  {
    if i < |log| - 1 {
      LoggedAreEvents(log[..|log| - 1], i);
    }
  }

  /** No event is published twice; each update has its insert somewhere before it. */
  lemma UpdatesFollowInserts(step: int, draws: seq<Draw>, j: nat)
    requires step > 0 && j < |Run(step, draws).log|
    ensures var log := Run(step, draws).log;
      && (forall k :: 0 <= k < |log| && log[k].event == log[j].event ==> k == j)
      && (log[j].event.Updated? ==> exists i :: 0 <= i < j && log[i].event == Inserted(log[j].event.id))
  {
    RunKeepsInv(step, draws);
    UpdateFollows(Run(step, draws).log, j);
  }

  lemma {:induction false} UpdateFollows(log: seq<Stamped>, j: nat)
    requires Ordering(log) && j < |log|
    ensures forall k :: 0 <= k < |log| && log[k].event == log[j].event ==> k == j
    ensures log[j].event.Updated? ==> exists i :: 0 <= i < j && log[i].event == Inserted(log[j].event.id)
    decreases |log|
  {
    var init, last := log[..|log| - 1], |log| - 1;
    if j < last {
      UpdateFollows(init, j);
      LoggedAreEvents(init, j);
      assert forall k :: 0 <= k < last ==> log[k] == init[k];
    } else {
      forall k | 0 <= k < last ensures log[k].event != log[j].event {
        LoggedAreEvents(init, k);
      }
      if log[j].event.Updated? {
        var i := EventsAreLogged(init, Inserted(log[j].event.id));
        assert log[i] == init[i];
      }
    }
  }

  // ---------- the loop ----------

  /** The loop's variables and the registry, updated in place; the history is ghost. */
  class Publisher {
    const step: int
    var clock: int
    var iteration: nat
    var orderId: nat
    var paymentId: nat
    var auditId: nat
    var pending: seq<Order>
    var pendingPriority: string
    var awaiting: seq<(int, int)>
    var messages: seq<Message>
    var orders: map<int, Order>
    var payments: map<int, Payment>
    var audits: map<(int, Op), AuditChange>
    var maxEventMs: int
    ghost var log: seq<Stamped>
    ghost var generated: seq<Order>

    constructor (step: int)
      ensures this.step == step && Abs() == START
    {
      this.step := step;
      clock, iteration, orderId, paymentId, auditId := BASE_TS_MS, 0, 0, 0, 0;
      pending, pendingPriority, awaiting, messages := [], Priority(0), [], [];
      orders, payments, audits, maxEventMs := map[], map[], map[], 0;
      log, generated := [], [];
    }

    ghost function Abs(): State
      reads this
    {
      State(clock, iteration, orderId, paymentId, auditId, pending, pendingPriority, awaiting, messages,
            orders, payments, audits, maxEventMs, log, generated)
    }

    method Advance(ghost event: Event)
      modifies this`clock, this`maxEventMs, this`log
      ensures Abs() == Tick(old(Abs()), step, event)
    {
      clock := clock + step;
      maxEventMs := Max(maxEventMs, clock);
      log := log + [Stamped(event, clock)];
    }

    method OneOrder(d: Draw)
      modifies this
      ensures Abs() == PlaceOrder(old(Abs()), step, d)
    {
      iteration := iteration + 1;
      Advance(Ordered(orderId + 1));
      assert Abs() == Tick(old(Abs()), step, Ordered(old(orderId) + 1)).(iteration := old(iteration) + 1);
      orderId := orderId + 1;
      Enqueue(Order(orderId, d.sku, d.qty, d.unitPrice, d.region, pendingPriority, clock));
    }

    /** The order joins the message being filled and the registry. */
    method Enqueue(order: Order)
      modifies this`pending, this`orders, this`generated
      ensures Abs() == old(Abs()).(pending := old(pending) + [order], orders := old(orders)[order.id := order],
                                   generated := old(generated) + [order])
    {
      pending := pending + [order];
      orders := orders[order.id := order];
      generated := generated + [order];
    }

    method FlushFull()
      modifies this`messages, this`pending, this`pendingPriority
      ensures Abs() == SendIfFull(old(Abs()))
    {
      if |pending| == ORDERS_PER_MESSAGE {
        messages := messages + [Message(pendingPriority, pending)];
        pending := [];
        pendingPriority := Priority(|messages|);
      }
    }

    method OnePayment(d: Draw)
      modifies this
      ensures Abs() == MakePayment(old(Abs()), step, d)
    {
      if iteration % 2 == 0 {
        Advance(Paid(paymentId + 1));
        paymentId := paymentId + 1;
        payments := payments[paymentId := Payment(d.amount, d.paymentRegion, clock)];
      }
    }

    method OneInsert()
      modifies this
      ensures Abs() == InsertAudit(old(Abs()), step)
    {
      if iteration % 3 == 0 {
        Advance(Inserted(auditId + 1));
        auditId := auditId + 1;
        audits := audits[(auditId, Insert) := AuditChange(orderId, "placed", 1, clock)];
        awaiting := awaiting + [(auditId, orderId)];
      }
    }

    method OneUpdate(d: Draw)
      modifies this
      ensures Abs() == UpdateAudit(old(Abs()), step, d)
    {
      if iteration % 5 == 0 && awaiting != [] {
        var (id, order) := awaiting[|awaiting| - 1];
        awaiting := awaiting[..|awaiting| - 1];
        Advance(Updated(id));
        audits := audits[(id, Update) := AuditChange(order, d.status, 2, clock)];
      }
    }

    method OneIteration(d: Draw)
      modifies this
      ensures Abs() == Iterate(old(Abs()), step, d)
    {
      OneOrder(d);
      FlushFull();
      OnePayment(d);
      OneInsert();
      OneUpdate(d);
    }

    method Publish(draws: seq<Draw>)
      requires Abs() == START
      modifies this
      ensures Abs() == Run(step, draws).(messages := AllMessages(Run(step, draws)))
    {
      var k := 0;
      while k < |draws|
        invariant 0 <= k <= |draws| && Abs() == Run(step, draws[..k])
      {
        assert draws[..k + 1][..k] == draws[..k];
        OneIteration(draws[k]);
        k := k + 1;
      }
      assert draws[..k] == draws;
      if pending != [] {
        messages := messages + [Message(pendingPriority, pending)];
      }
    }
  }
}
