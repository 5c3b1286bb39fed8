/**
  The final check in plain arithmetic: what the receiver's registry amounts to
  for any bodies at all, and when the check reports a group, with the sums and
  the limits written out.
*/
module IntegrityCheck {
  import opened IntegrityVerifier
  import opened Sequences

  // ---------- the figures of a group ----------

  /** The item's region is the group's, and its time is in the ten seconds of the group's window. */
  predicate InWindow(p: Published, k: Key) {
    p.region == k.region && k.window * 10_000 <= p.eventMs < (k.window + 1) * 10_000
  }

  /** How many published orders, or payments, are in the group. */
  function ItemCount(published: seq<Published>, k: Key, orders: bool): int {
    if published == [] then 0
    else
      var p := published[0];
      (if InWindow(p, k) && p.isOrder == orders then 1 else 0) + ItemCount(published[1..], k, orders)
  }

  /** What the published orders, or payments, of the group add up to. */
  function ItemCents(published: seq<Published>, k: Key, orders: bool): int {
    if published == [] then 0
    else
      var p := published[0];
      (if InWindow(p, k) && p.isOrder == orders then p.cents else 0) + ItemCents(published[1..], k, orders)
  }

  /** A row adds one figure to its group. */
  type Figure = Tally -> int

  function OrderCount(t: Tally): int { t.orders }

  function PaymentCount(t: Tally): int { t.payments }

  function OrderCents(t: Tally): int { t.orderCents }

  function PaymentCents(t: Tally): int { t.paymentCents }

  function Each(t: Tally): int { 1 }

  function RowSum(rows: seq<Row>, k: Key, figure: Figure): int {
    if rows == [] then 0
    else (if rows[0].key == k then figure(rows[0].delta) else 0) + RowSum(rows[1..], k, figure)
  }

  function BodySum(bodies: seq<Body>, k: Key, figure: Figure): int {
    if bodies == [] then 0 else RowSum(bodies[0], k, figure) + BodySum(bodies[1..], k, figure)
  }

  function RowCount(bodies: seq<Body>): nat {
    if bodies == [] then 0 else |bodies[0]| + RowCount(bodies[1..])
  }

  /** Some body has a row of the group. */
  ghost predicate Reported(bodies: seq<Body>, k: Key) {
    exists i :: 0 <= i < |bodies| && exists j :: 0 <= j < |bodies[i]| && bodies[i][j].key == k
  }

  ghost predicate InSomeWindow(published: seq<Published>, k: Key) {
    exists i :: 0 <= i < |published| && InWindow(published[i], k)
  }

  /** The window ended at least two seconds before the last event, and after the warm-up. */
  predicate Due(k: Key, watermark: int, warmupSecs: nat) {
    && (k.window + 1) * 10_000 + 2_000 <= watermark
    && (k.window + 1) * 10_000 > 1_700_000_000_000 + warmupSecs * 1000
  }

  predicate WithinOneCent(a: int, b: int) {
    -1 <= a - b <= 1
  }

  /** The bodies add up to the group's orders and payments, and to their amounts within a cent. */
  predicate AddsUp(bodies: seq<Body>, published: seq<Published>, k: Key) {
    && BodySum(bodies, k, OrderCount) == ItemCount(published, k, true)
    && BodySum(bodies, k, PaymentCount) == ItemCount(published, k, false)
    && WithinOneCent(BodySum(bodies, k, OrderCents), ItemCents(published, k, true))
    && WithinOneCent(BodySum(bodies, k, PaymentCents), ItemCents(published, k, false))
  }

  // ---------- the model's sums are these ----------

  lemma WindowIsGroup(p: Published, k: Key)
    ensures p.GroupKey() == k <==> InWindow(p, k)
  {
    var id := WindowIdOf(p.eventMs);
    assert id * 10_000 <= p.eventMs < (id + 1) * 10_000;
  }

  lemma {:induction false} ExpectedCounts(published: seq<Published>, k: Key)
    ensures Expected(published, k).orders == ItemCount(published, k, true)
    ensures Expected(published, k).payments == ItemCount(published, k, false)
  {
    if published != [] {
      WindowIsGroup(published[0], k);
      ExpectedCounts(published[1..], k);
    }
  }

  lemma {:induction false} ExpectedCents(published: seq<Published>, k: Key)
    ensures Expected(published, k).orderCents == ItemCents(published, k, true)
    ensures Expected(published, k).paymentCents == ItemCents(published, k, false)
  {
    if published != [] {
      WindowIsGroup(published[0], k);
      ExpectedCents(published[1..], k);
    }
  }

  ghost predicate Additive(figure: Figure) {
    figure(NOTHING) == 0 && forall a, b :: figure(Plus(a, b)) == figure(a) + figure(b)
  }

  lemma {:induction false} TotalFigure(rows: seq<Row>, k: Key, figure: Figure)
    requires Additive(figure)
    ensures figure(Total(rows, k)) == RowSum(rows, k, figure)
  {
    if rows != [] {
      TotalFigure(rows[1..], k, figure);
    }
  }

  lemma {:induction false} SumFigure(bodies: seq<Body>, k: Key, figure: Figure)
    requires Additive(figure)
    ensures figure(Sum(bodies, k)) == BodySum(bodies, k, figure)
  {
    if bodies != [] {
      TotalFigure(bodies[0], k, figure);
      SumFigure(bodies[1..], k, figure);
    }
  }

  lemma SumIsPlain(bodies: seq<Body>, k: Key)
    ensures Sum(bodies, k) ==
      Tally(BodySum(bodies, k, OrderCount), BodySum(bodies, k, PaymentCount),
            BodySum(bodies, k, OrderCents), BodySum(bodies, k, PaymentCents))
  {
    SumFigure(bodies, k, OrderCount);
    SumFigure(bodies, k, PaymentCount);
    SumFigure(bodies, k, OrderCents);
    SumFigure(bodies, k, PaymentCents);
  }

  lemma KnownIsPlain(published: seq<Published>, k: Key)
    ensures Known(published, k) <==> InSomeWindow(published, k)
  {
    forall i | 0 <= i < |published| ensures published[i].GroupKey() == k <==> InWindow(published[i], k) {
      WindowIsGroup(published[i], k);
    }
  }

  lemma MentionedIsPlain(bodies: seq<Body>, k: Key)
    ensures MentionedBy(bodies, k) <==> Reported(bodies, k)
  {
    if MentionedBy(bodies, k) {
      var b :| b in bodies && Mentions(b, k);
      var i :| 0 <= i < |bodies| && bodies[i] == b;
      assert Mentions(bodies[i], k);
    }
    if Reported(bodies, k) {
      var i :| 0 <= i < |bodies| && exists j :: 0 <= j < |bodies[i]| && bodies[i][j].key == k;
      assert bodies[i] in bodies && Mentions(bodies[i], k);
    }
  }

  // ---------- the check ----------

  /** Each group's total in the registry is the sum over the distinct bodies, in whatever order they are listed. */
  lemma TotalsArePlain(bodies: seq<Body>, distinct: seq<Body>, k: Key)
    requires NoRepeats(distinct) && SameBodies(distinct, bodies)
    ensures Entry(VerifyAll(bodies).seen, k).total ==
      Tally(BodySum(distinct, k, OrderCount), BodySum(distinct, k, PaymentCount),
            BodySum(distinct, k, OrderCents), BodySum(distinct, k, PaymentCents))
    ensures k in VerifyAll(bodies).seen <==> Reported(bodies, k)
  {
    DistinctBodiesCountOnce(bodies);
    ArrivalsAreDistinct(bodies);
    SumOfPermutation(FirstArrivals(bodies), distinct, k);
    SumIsPlain(distinct, k);
    MentionedIsPlain(bodies, k);
  }

  /**
    Whatever the bodies hold, the check reports exactly the published groups whose
    time has come and which no body mentions or whose distinct bodies do not add up.
  */
  lemma FlaggedExactlyByTotals(bodies: seq<Body>, distinct: seq<Body>, published: seq<Published>, k: Key,
                               watermark: int, warmupSecs: nat)
    requires NoRepeats(distinct) && SameBodies(distinct, bodies)
    ensures Flagged(VerifyAll(bodies), published, k, watermark, warmupSecs) <==>
      && InSomeWindow(published, k)
      && Due(k, watermark, warmupSecs)
      && !(Reported(bodies, k) && AddsUp(distinct, published, k))
  {
    TotalsArePlain(bodies, distinct, k);
    ExpectedCounts(published, k);
    ExpectedCents(published, k);
    KnownIsPlain(published, k);
  }

  // ---------- the counters ----------

  /** A group counts as unique once, and every other row of it as a duplicate. */
  ghost predicate Tidy(r: Registry) {
    && r.unique == |r.seen.Keys|
    && r.unique + r.duplicates == r.rows
    && forall k :: k in r.seen ==> r.seen[k].emissions > 0
  }

  lemma FirstRowCounted(r: Registry, row: Row, k: Key)
    requires Tidy(r)
    ensures
      var s := AddFirst(r, row);
      && Tidy(s) && s.rows == r.rows + 1
      && Entry(s.seen, k).emissions == Entry(r.seen, k).emissions + RowSum([row], k, Each)
      && Entry(s.seen, k).retried == Entry(r.seen, k).retried
  {
    var s := AddFirst(r, row);
    assert s.seen.Keys == r.seen.Keys + {row.key};
    assert [row][1..] == [];
  }

  lemma RepeatedRowCounted(r: Registry, row: Row, k: Key)
    requires Tidy(r) && row.key in r.seen
    ensures
      var s := AddAgain(r, row);
      && Tidy(s) && s.rows == r.rows + 1 && s.seen.Keys == r.seen.Keys
      && Entry(s.seen, k).emissions == Entry(r.seen, k).emissions
      && Entry(s.seen, k).retried == Entry(r.seen, k).retried + RowSum([row], k, Each)
  {
    assert AddAgain(r, row).seen.Keys == r.seen.Keys;
    assert [row][1..] == [];
  }

  lemma OneRowMore(rows: seq<Row>, k: Key)
    requires rows != []
    ensures RowSum(rows, k, Each) == RowSum([rows[0]], k, Each) + RowSum(rows[1..], k, Each)
  {
    assert [rows[0]][1..] == [];
  }

  lemma {:induction false} FirstRowsCounted(r: Registry, rows: seq<Row>, k: Key)
    requires Tidy(r)
    ensures
      var s := AddRows(r, rows, false);
      && Tidy(s) && s.rows == r.rows + |rows|
      && Entry(s.seen, k).emissions == Entry(r.seen, k).emissions + RowSum(rows, k, Each)
      && Entry(s.seen, k).retried == Entry(r.seen, k).retried
    decreases |rows|
  {
    if rows != [] {
      FirstRowCounted(r, rows[0], k);
      FirstRowsCounted(AddFirst(r, rows[0]), rows[1..], k);
      OneRowMore(rows, k);
    }
  }

  lemma {:induction false} RepeatedRowsCounted(r: Registry, rows: seq<Row>, k: Key)
    requires Tidy(r) && forall i :: 0 <= i < |rows| ==> rows[i].key in r.seen
    ensures
      var s := AddRows(r, rows, true);
      && Tidy(s) && s.rows == r.rows + |rows|
      && Entry(s.seen, k).emissions == Entry(r.seen, k).emissions
      && Entry(s.seen, k).retried == Entry(r.seen, k).retried + RowSum(rows, k, Each)
    decreases |rows|
  {
    if rows != [] {
      RepeatedRowCounted(r, rows[0], k);
      assert forall i :: 0 <= i < |rows[1..]| ==> rows[1..][i] == rows[i + 1];
      RepeatedRowsCounted(AddAgain(r, rows[0]), rows[1..], k);
      OneRowMore(rows, k);
    }
  }

  lemma {:induction false} OneBodyMore(init: seq<Body>, last: Body, k: Key, figure: Figure)
    ensures BodySum(init + [last], k, figure) == BodySum(init, k, figure) + RowSum(last, k, figure)
    ensures RowCount(init + [last]) == RowCount(init) + |last|
    decreases |init|
  {
    if init == [] {
      assert [last][1..] == [] && init + [last] == [last];
    } else {
      assert (init + [last])[1..] == init[1..] + [last];
      OneBodyMore(init[1..], last, k, figure);
    }
  }

  /** A group's rows are emissions on a body's first delivery, and only then. */
  lemma {:induction false} EmissionsAreExact(bodies: seq<Body>, k: Key)
    ensures Entry(VerifyAll(bodies).seen, k).emissions == BodySum(FirstArrivals(bodies), k, Each)
    decreases |bodies|
  {
    if bodies != [] {
      var init, last := bodies[..|bodies| - 1], bodies[|bodies| - 1];
      EmissionsAreExact(init, k);
      AlwaysTidy(init);
      BodyCounted(init, last, k);
      SumsMore(init, last, k);
      SplitLast(bodies);
    }
  }

  /** Every row of a group received is an emission or a retry. */
  lemma {:induction false} RetriesAreExact(bodies: seq<Body>, k: Key)
    ensures
      var e := Entry(VerifyAll(bodies).seen, k);
      e.emissions + e.retried == BodySum(bodies, k, Each)
    decreases |bodies|
  {
    if bodies != [] {
      var init, last := bodies[..|bodies| - 1], bodies[|bodies| - 1];
      RetriesAreExact(init, k);
      AlwaysTidy(init);
      BodyCounted(init, last, k);
      SumsMore(init, last, k);
      SplitLast(bodies);
    }
  }

  lemma {:induction false} RowsAreCounted(bodies: seq<Body>)
    ensures VerifyAll(bodies).rows == RowCount(bodies)
    decreases |bodies|
  {
    if bodies != [] {
      var init, last := bodies[..|bodies| - 1], bodies[|bodies| - 1];
      RowsAreCounted(init);
      AlwaysTidy(init);
      BodyCounted(init, last, Key(0, ""));
      SumsMore(init, last, Key(0, ""));
      SplitLast(bodies);
    }
  }

  lemma {:induction false} AlwaysTidy(bodies: seq<Body>)
    ensures Tidy(VerifyAll(bodies))
    decreases |bodies|
  {
    if bodies != [] {
      var init, last := bodies[..|bodies| - 1], bodies[|bodies| - 1];
      AlwaysTidy(init);
      BodyCounted(init, last, Key(0, ""));
    }
  }

  /** What one more body does to the registry and to the sums. */
  lemma SumsMore(init: seq<Body>, last: Body, k: Key)
    ensures VerifyAll(init + [last]) == VerifyBody(VerifyAll(init), last)
    ensures RowCount(init + [last]) == RowCount(init) + |last|
    ensures BodySum(init + [last], k, Each) == BodySum(init, k, Each) + RowSum(last, k, Each)
    ensures BodySum(FirstArrivals(init + [last]), k, Each) ==
      BodySum(FirstArrivals(init), k, Each) + (if last in init then 0 else RowSum(last, k, Each))
  {
    VerifiedMore(init, last);
    OneBodyMore(init, last, k, Each);
    ArrivalsMore(init, last);
    ArrivalsSum(FirstArrivals(init), last in init, last, k);
  }

  lemma ArrivalsSum(arrivals: seq<Body>, known: bool, last: Body, k: Key)
    ensures BodySum(arrivals + (if known then [] else [last]), k, Each) ==
      BodySum(arrivals, k, Each) + (if known then 0 else RowSum(last, k, Each))
  {
    if known {
      assert arrivals + [] == arrivals;
    } else {
      OneBodyMore(arrivals, last, k, Each);
    }
  }

  lemma VerifiedMore(init: seq<Body>, last: Body)
    ensures VerifyAll(init + [last]) == VerifyBody(VerifyAll(init), last)
  {
    assert (init + [last])[..|init|] == init;
  }

  lemma ArrivalsMore(init: seq<Body>, last: Body)
    ensures FirstArrivals(init + [last]) == FirstArrivals(init) + (if last in init then [] else [last])
  {
    assert (init + [last])[..|init|] == init;
  }

  lemma BodyCounted(init: seq<Body>, last: Body, k: Key)
    requires Tidy(VerifyAll(init))
    ensures
      var r, s := VerifyAll(init), VerifyBody(VerifyAll(init), last);
      && Tidy(s) && s.rows == r.rows + |last|
      && Entry(s.seen, k).emissions == Entry(r.seen, k).emissions + (if last in init then 0 else RowSum(last, k, Each))
      && Entry(s.seen, k).retried == Entry(r.seen, k).retried + (if last in init then RowSum(last, k, Each) else 0)
  {
    var r := VerifyAll(init);
    var marked := r.(bodies := r.bodies + {last});
    DistinctBodiesCountOnce(init);
    if last in init {
      forall i | 0 <= i < |last| ensures last[i].key in r.seen {
        assert Mentions(last, last[i].key) && MentionedBy(init, last[i].key);
      }
      RepeatedRowsCounted(marked, last, k);
    } else {
      FirstRowsCounted(marked, last, k);
    }
  }
}
