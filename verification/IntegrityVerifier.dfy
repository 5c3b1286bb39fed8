/**
  The receiving side of the integrity run: window totals accumulated from bodies
  that may be re-sent any number of times in any order, and the final check of
  every closed window against what was published.

  Money is in integer cents; a body is compared by its content, as if its digest
  never collided.
*/
module IntegrityVerifier {
  import opened IntegrityClock

  const WINDOW_SIZE_MS: int := 10_000
  const ALLOWED_LATENESS_MS: int := 2_000

  /** Tumbling window id; the division rounds toward minus infinity. */
  function WindowIdOf(eventMs: int): (id: int)
    ensures id * WINDOW_SIZE_MS <= eventMs < (id + 1) * WINDOW_SIZE_MS
  {
    eventMs / WINDOW_SIZE_MS
  }

  /** Totals are kept per window and region. */
  datatype Key = Key(window: int, region: string)

  /** Order count, payment count, order amount, payment amount. */
  datatype Tally = Tally(orders: int, payments: int, orderCents: int, paymentCents: int)

  const NOTHING := Tally(0, 0, 0, 0)

  function Plus(a: Tally, b: Tally): Tally {
    Tally(a.orders + b.orders, a.payments + b.payments, a.orderCents + b.orderCents, a.paymentCents + b.paymentCents)
  }

  // ---------- what arrives ----------

  /** One emission of one group: a re-fire carries only the delta. */
  datatype Row = Row(key: Key, delta: Tally)

  type Body = seq<Row>

  datatype Seen = Seen(emissions: nat, retried: nat, total: Tally)

  const UNSEEN := Seen(0, 0, NOTHING)

  datatype Registry = Registry(
    bodies: set<Body>,
    seen: map<Key, Seen>,
    rows: nat,
    unique: nat,
    duplicates: nat)

  const EMPTY := Registry({}, map[], 0, 0, 0)

  function Entry(seen: map<Key, Seen>, k: Key): Seen {
    if k in seen then seen[k] else UNSEEN
  }

  function AddRow(r: Registry, row: Row, repeated: bool): Registry {
    var e := Entry(r.seen, row.key);
    if repeated then
      r.(seen := r.seen[row.key := e.(retried := e.retried + 1)], rows := r.rows + 1, duplicates := r.duplicates + 1)
    else
      var grown := e.(emissions := e.emissions + 1, total := Plus(e.total, row.delta));
      r.(seen := r.seen[row.key := grown], rows := r.rows + 1,
         unique := if e.emissions == 0 then r.unique + 1 else r.unique,
         duplicates := if e.emissions == 0 then r.duplicates else r.duplicates + 1)
  }

  type RowStep = (Registry, Row) -> Registry

  function AddFirst(r: Registry, row: Row): Registry { AddRow(r, row, false) }

  function AddAgain(r: Registry, row: Row): Registry { AddRow(r, row, true) }

  function Fold(r: Registry, rows: seq<Row>, step: RowStep): Registry
    decreases |rows|
  {
    if rows == [] then r else Fold(step(r, rows[0]), rows[1..], step)
  }

  function AddRows(r: Registry, rows: seq<Row>, repeated: bool): Registry {
    Fold(r, rows, if repeated then AddAgain else AddFirst)
  }

  /** Whether a body is a re-send is decided once, for all its rows. */
  function VerifyBody(r: Registry, body: Body): Registry {
    AddRows(r.(bodies := r.bodies + {body}), body, body in r.bodies)
  }

  function VerifyAll(bodies: seq<Body>): Registry {
    if bodies == [] then EMPTY else VerifyBody(VerifyAll(bodies[..|bodies| - 1]), bodies[|bodies| - 1])
  }

  // ---------- each distinct body counts once ----------

  function Total(rows: seq<Row>, k: Key): Tally {
    if rows == [] then NOTHING
    else Plus(Share(rows[0], k), Total(rows[1..], k))
  }

  /** What one row adds to group `k`. */
  function Share(row: Row, k: Key): Tally {
    if row.key == k then row.delta else NOTHING
  }

  predicate Mentions(rows: seq<Row>, k: Key) {
    exists i :: 0 <= i < |rows| && rows[i].key == k
  }

  /** The bodies in order of first arrival. */
  function FirstArrivals(bodies: seq<Body>): seq<Body> {
    if bodies == [] then []
    else
      var init, last := bodies[..|bodies| - 1], bodies[|bodies| - 1];
      FirstArrivals(init) + if last in init then [] else [last]
  }

  function Sum(bodies: seq<Body>, k: Key): Tally {
    if bodies == [] then NOTHING else Plus(Total(bodies[0], k), Sum(bodies[1..], k))
  }

  lemma RowAdded(r: Registry, row: Row, k: Key)
    ensures AddFirst(r, row).bodies == r.bodies
    ensures Entry(AddFirst(r, row).seen, k).total == Plus(Entry(r.seen, k).total, Share(row, k))
    ensures k in AddFirst(r, row).seen <==> k in r.seen || row.key == k
  {
    if row.key == k {
      assert Entry(AddFirst(r, row).seen, k).total == Plus(Entry(r.seen, k).total, row.delta);
    } else {
      assert Entry(AddFirst(r, row).seen, k) == Entry(r.seen, k);
      PlusAssoc(Entry(r.seen, k).total, NOTHING, NOTHING);
    }
  }

  lemma PlusAssoc(a: Tally, b: Tally, c: Tally)
    ensures Plus(Plus(a, b), c) == Plus(a, Plus(b, c)) && Plus(a, b) == Plus(b, a)
    ensures Plus(NOTHING, c) == c && Plus(a, NOTHING) == a
  {
  }

  /** A fold whose every step adds a row's share adds up the shares. */
  lemma {:induction false} FoldTotals(r: Registry, rows: seq<Row>, step: RowStep, k: Key)
    requires forall s: Registry, row: Row ::
      Entry(step(s, row).seen, k).total == Plus(Entry(s.seen, k).total, Share(row, k))
    ensures Entry(Fold(r, rows, step).seen, k).total == Plus(Entry(r.seen, k).total, Total(rows, k))
    decreases |rows|
  {
    var t := Entry(r.seen, k).total;
    if rows == [] {
      PlusAssoc(t, NOTHING, NOTHING);
    } else {
      FoldTotals(step(r, rows[0]), rows[1..], step, k);
      PlusAssoc(t, Share(rows[0], k), Total(rows[1..], k));
    }
  }

  lemma {:induction false} FoldKnows(r: Registry, rows: seq<Row>, step: RowStep, k: Key)
    requires forall s: Registry, row: Row ::
      (k in step(s, row).seen <==> k in s.seen || row.key == k) && step(s, row).bodies == s.bodies
    ensures k in Fold(r, rows, step).seen <==> k in r.seen || Mentions(rows, k)
    ensures Fold(r, rows, step).bodies == r.bodies
    decreases |rows|
  {
    if rows != [] {
      MentionsCons(rows, k);
      FoldKnows(step(r, rows[0]), rows[1..], step, k);
    }
  }

  /** A body seen for the first time adds its rows to its groups. */
  lemma RowsAdded(r: Registry, rows: seq<Row>, k: Key)
    ensures AddRows(r, rows, false).bodies == r.bodies
    ensures Entry(AddRows(r, rows, false).seen, k).total == Plus(Entry(r.seen, k).total, Total(rows, k))
    ensures k in AddRows(r, rows, false).seen <==> k in r.seen || Mentions(rows, k)
  {
    forall s: Registry, row: Row
      ensures Entry(AddFirst(s, row).seen, k).total == Plus(Entry(s.seen, k).total, Share(row, k))
      ensures (k in AddFirst(s, row).seen <==> k in s.seen || row.key == k) && AddFirst(s, row).bodies == s.bodies
    {
      RowAdded(s, row, k);
    }
    FoldTotals(r, rows, AddFirst, k);
    FoldKnows(r, rows, AddFirst, k);
  }

  lemma MentionsCons(rows: seq<Row>, k: Key)
    requires rows != []
    ensures Mentions(rows, k) <==> rows[0].key == k || Mentions(rows[1..], k)
  {
    if Mentions(rows[1..], k) {
      var i :| 0 <= i < |rows[1..]| && rows[1..][i].key == k;
      assert rows[i + 1].key == k;
    }
    if Mentions(rows, k) && rows[0].key != k {
      var i :| 0 <= i < |rows| && rows[i].key == k;
      assert rows[1..][i - 1].key == k;
    }
  }

  lemma RowRepeated(r: Registry, row: Row, k: Key)
    requires row.key in r.seen
    ensures AddAgain(r, row).bodies == r.bodies && AddAgain(r, row).seen.Keys == r.seen.Keys
    ensures Entry(AddAgain(r, row).seen, k).total == Entry(r.seen, k).total
  {
  }

  /** A body seen before changes no total. */
  lemma {:induction false} RowsRepeated(r: Registry, rows: seq<Row>, k: Key)
    requires forall i :: 0 <= i < |rows| ==> rows[i].key in r.seen
    ensures AddRows(r, rows, true).bodies == r.bodies && AddRows(r, rows, true).seen.Keys == r.seen.Keys
    ensures Entry(AddRows(r, rows, true).seen, k).total == Entry(r.seen, k).total
    decreases |rows|
  {
    if rows != [] {
      RowRepeated(r, rows[0], k);
      var next := AddAgain(r, rows[0]);
      assert forall i :: 0 <= i < |rows[1..]| ==> rows[1..][i] == rows[i + 1];
      RowsRepeated(next, rows[1..], k);
    }
  }

  lemma {:induction false} SumConcat(a: seq<Body>, b: seq<Body>, k: Key)
    ensures Sum(a + b, k) == Plus(Sum(a, k), Sum(b, k))
    decreases |a|
  {
    if a == [] {
      assert a + b == b;
    } else {
      assert (a + b)[1..] == a[1..] + b;
      SumConcat(a[1..], b, k);
    }
  }

  /** A registry's totals and known groups are those of the bodies received so far. */
  ghost predicate Accounts(r: Registry, bodies: seq<Body>) {
    && (forall b :: b in r.bodies <==> b in bodies)
    && (forall k :: Entry(r.seen, k).total == Sum(FirstArrivals(bodies), k))
    && (forall k :: k in r.seen <==> MentionedBy(bodies, k))
  }

  ghost predicate MentionedBy(bodies: seq<Body>, k: Key) {
    exists b :: b in bodies && Mentions(b, k)
  }

  lemma MentionedByMore(bodies: seq<Body>, b: Body, k: Key)
    ensures MentionedBy(bodies + [b], k) <==> MentionedBy(bodies, k) || Mentions(b, k)
  {
    assert forall c :: c in bodies + [b] <==> c in bodies || c == b;
  }

  lemma FirstBodyAccounts(r: Registry, init: seq<Body>, last: Body)
    requires Accounts(r, init) && last !in init
    ensures Accounts(VerifyBody(r, last), init + [last])
  {
    var bodies, marked := init + [last], r.(bodies := r.bodies + {last});
    var next := AddRows(marked, last, false);
    assert forall b :: b in bodies <==> b in init || b == last;
    assert next == VerifyBody(r, last);
    RowsAdded(marked, last, Key(0, ""));
    forall k ensures Entry(next.seen, k).total == Sum(FirstArrivals(bodies), k) {
      RowsAdded(marked, last, k);
      ArrivalSum(init, last, k);
    }
    forall k ensures k in next.seen <==> MentionedBy(bodies, k) {
      RowsAdded(marked, last, k);
      MentionedByMore(init, last, k);
    }
  }

  lemma ArrivalSum(init: seq<Body>, last: Body, k: Key)
    requires last !in init
    ensures Sum(FirstArrivals(init + [last]), k) == Plus(Sum(FirstArrivals(init), k), Total(last, k))
  {
    assert (init + [last])[..|init|] == init;
    SumConcat(FirstArrivals(init), [last], k);
    assert Sum([last][1..], k) == NOTHING;
    PlusAssoc(Total(last, k), NOTHING, NOTHING);
  }

  lemma ResentBodyAccounts(r: Registry, init: seq<Body>, last: Body)
    requires Accounts(r, init) && last in init
    ensures Accounts(VerifyBody(r, last), init + [last])
  {
    var bodies, marked := init + [last], r.(bodies := r.bodies + {last});
    assert bodies[..|init|] == init;
    assert forall b :: b in bodies <==> b in init || b == last;
    forall i | 0 <= i < |last| ensures last[i].key in r.seen {
      assert Mentions(last, last[i].key) && MentionedBy(init, last[i].key);
    }
    RowsRepeated(marked, last, Key(0, ""));
    forall k ensures Entry(AddRows(marked, last, true).seen, k).total == Entry(r.seen, k).total {
      RowsRepeated(marked, last, k);
    }
    forall k ensures MentionedBy(bodies, k) <==> MentionedBy(init, k) {
      MentionedByMore(init, last, k);
    }
    assert FirstArrivals(bodies) == FirstArrivals(init);
  }

  /**
    After any sequence of deliveries each group's total is the sum over the
    distinct bodies, and a group is known exactly when some body mentions it.
  */
  lemma {:induction false} DistinctBodiesCountOnce(bodies: seq<Body>)
    ensures Accounts(VerifyAll(bodies), bodies)
    decreases |bodies|
  {
    if bodies != [] {
      var init, last := bodies[..|bodies| - 1], bodies[|bodies| - 1];
      assert bodies == init + [last];
      DistinctBodiesCountOnce(init);
      if last in init {
        ResentBodyAccounts(VerifyAll(init), init, last);
      } else {
        FirstBodyAccounts(VerifyAll(init), init, last);
      }
    }
  }

  ghost predicate NoRepeats(bodies: seq<Body>) {
    forall i, j :: 0 <= i < j < |bodies| ==> bodies[i] != bodies[j]
  }

  ghost predicate SameBodies(a: seq<Body>, b: seq<Body>) {
    forall x :: x in a <==> x in b
  }

  lemma {:induction false} ArrivalsAreDistinct(bodies: seq<Body>)
    ensures NoRepeats(FirstArrivals(bodies)) && SameBodies(FirstArrivals(bodies), bodies)
    decreases |bodies|
  {
    if bodies != [] {
      var init, last := bodies[..|bodies| - 1], bodies[|bodies| - 1];
      ArrivalsAreDistinct(init);
      assert forall b :: b in bodies <==> b in init || b == last;
    }
  }

  lemma {:induction false} SumOfPermutation(a: seq<Body>, b: seq<Body>, k: Key)
    requires NoRepeats(a) && NoRepeats(b) && SameBodies(a, b)
    ensures Sum(a, k) == Sum(b, k)
    decreases |a|
  {
    if a == [] {
      if b != [] {
        HasBody(b);
      }
    } else {
      assert a[0] in b;
      var i :| 0 <= i < |b| && b[i] == a[0];
      SumWithout(b, i, k);
      RestMatches(a, b, i);
      SumOfPermutation(a[1..], b[..i] + b[i + 1..], k);
    }
  }

  lemma SumWithout(b: seq<Body>, i: nat, k: Key)
    requires i < |b|
    ensures Sum(b, k) == Plus(Total(b[i], k), Sum(b[..i] + b[i + 1..], k))
  {
    assert b == b[..i] + ([b[i]] + b[i + 1..]);
    SumConcat(b[..i], [b[i]] + b[i + 1..], k);
    SumConcat(b[..i], b[i + 1..], k);
    assert ([b[i]] + b[i + 1..])[1..] == b[i + 1..];
  }

  lemma HasBody(b: seq<Body>)
    requires b != []
    ensures exists x :: x in b
  {
    assert b[0] in b;
  }

  lemma RestMatches(a: seq<Body>, b: seq<Body>, i: nat)
    requires NoRepeats(a) && NoRepeats(b) && SameBodies(a, b) && a != [] && i < |b| && b[i] == a[0]
    ensures NoRepeats(a[1..]) && NoRepeats(b[..i] + b[i + 1..]) && SameBodies(a[1..], b[..i] + b[i + 1..])
  {
    var rest := b[..i] + b[i + 1..];
    forall x ensures x in a[1..] <==> x in a && x != a[0] {
      if x in a && x != a[0] {
        var j :| 0 <= j < |a| && a[j] == x;
        assert a[1..][j - 1] == x;
      }
    }
    forall x ensures x in rest <==> x in b && x != b[i] {
      if x in b && x != b[i] {
        var j :| 0 <= j < |b| && b[j] == x;
        assert rest[if j < i then j else j - 1] == x;
      }
    }
  }

  /** Re-sends and reorderings change no total: only the set of distinct bodies matters. */
  lemma RedeliveryChangesNothing(bodies: seq<Body>, others: seq<Body>, k: Key)
    requires SameBodies(bodies, others)
    ensures Entry(VerifyAll(bodies).seen, k).total == Entry(VerifyAll(others).seen, k).total
    ensures k in VerifyAll(bodies).seen <==> k in VerifyAll(others).seen
  {
    DistinctBodiesCountOnce(bodies);
    DistinctBodiesCountOnce(others);
    ArrivalsAreDistinct(bodies);
    ArrivalsAreDistinct(others);
    SumOfPermutation(FirstArrivals(bodies), FirstArrivals(others), k);
  }

  // ---------- the final check ----------

  /** One published order or payment. */
  datatype Published = Published(eventMs: int, region: string, isOrder: bool, cents: int) {
    function GroupKey(): Key { Key(WindowIdOf(eventMs), region) }
  }

  function One(p: Published): Tally {
    if p.isOrder then Tally(1, 0, p.cents, 0) else Tally(0, 1, 0, p.cents)
  }

  /** What the publisher's own records say a group must add up to. */
  function Expected(published: seq<Published>, k: Key): Tally {
    if published == [] then NOTHING
    else Plus(if published[0].GroupKey() == k then One(published[0]) else NOTHING, Expected(published[1..], k))
  }

  /** Past its end plus the allowed lateness, and not in the warm-up. */
  predicate Asserted(k: Key, watermark: int, warmupSecs: nat) {
    var end := (k.window + 1) * WINDOW_SIZE_MS;
    end + ALLOWED_LATENESS_MS <= watermark && end > BASE_TS_MS + warmupSecs * 1000
  }

  /** Amounts may differ by one cent: the tolerance is 0.011. */
  predicate Differs(a: Tally, b: Tally) {
    || a.orders != b.orders || a.payments != b.payments
    || a.orderCents - b.orderCents > 1 || b.orderCents - a.orderCents > 1
    || a.paymentCents - b.paymentCents > 1 || b.paymentCents - a.paymentCents > 1
  }

  predicate Known(published: seq<Published>, k: Key) {
    exists i :: 0 <= i < |published| && published[i].GroupKey() == k
  }

  /** The groups the final check reports. */
  predicate Flagged(r: Registry, published: seq<Published>, k: Key, watermark: int, warmupSecs: nat) {
    && Known(published, k) && Asserted(k, watermark, warmupSecs)
    && (k !in r.seen || Differs(r.seen[k].total, Expected(published, k)))
  }

  function TallyAt(totals: map<Key, Tally>, k: Key): Tally {
    if k in totals then totals[k] else NOTHING
  }

  ghost predicate GroupedRight(totals: map<Key, Tally>, published: seq<Published>) {
    forall k :: (k in totals <==> Known(published, k)) && TallyAt(totals, k) == Expected(published, k)
  }

  lemma NothingGrouped()
    ensures GroupedRight(map[], [])
  {
  }

  lemma GroupedMore(totals: map<Key, Tally>, published: seq<Published>, p: Published)
    requires GroupedRight(totals, published)
    ensures GroupedRight(totals[p.GroupKey() := Plus(TallyAt(totals, p.GroupKey()), One(p))], published + [p])
  {
    var grown := totals[p.GroupKey() := Plus(TallyAt(totals, p.GroupKey()), One(p))];
    forall k ensures k in grown <==> Known(published + [p], k) {
      KnownSnoc(published, p, k);
    }
    forall k ensures TallyAt(grown, k) == Expected(published + [p], k) {
      if p.GroupKey() == k {
        OwnSnoc(published, p);
      } else {
        OtherSnoc(published, p, k);
      }
    }
  }

  lemma TakeOne(published: seq<Published>, i: nat)
    requires i < |published|
    ensures published[..i + 1] == published[..i] + [published[i]]
  {
  }

  /** The publisher's records, grouped. */
  method GroupTotals(published: seq<Published>) returns (totals: map<Key, Tally>)
    ensures GroupedRight(totals, published)
  {
    totals := map[];
    var i := 0;
    NothingGrouped();
    assert published[..0] == [];
    while i < |published|
      invariant 0 <= i <= |published|
      invariant GroupedRight(totals, published[..i])
    {
      var p := published[i];
      GroupedMore(totals, published[..i], p);
      TakeOne(published, i);
      totals := totals[p.GroupKey() := Plus(TallyAt(totals, p.GroupKey()), One(p))];
      i := i + 1;
    }
    assert published[..i] == published;
  }

  lemma KnownSnoc(published: seq<Published>, p: Published, k: Key)
    ensures Known(published + [p], k) <==> Known(published, k) || p.GroupKey() == k
  {
    if Known(published, k) {
      var i :| 0 <= i < |published| && published[i].GroupKey() == k;
      assert (published + [p])[i].GroupKey() == k;
    }
    if p.GroupKey() == k {
      assert (published + [p])[|published|].GroupKey() == k;
    }
  }

  lemma OwnSnoc(published: seq<Published>, p: Published)
    ensures Expected(published + [p], p.GroupKey()) == Plus(Expected(published, p.GroupKey()), One(p))
  {
    ExpectedConcat(published, [p], p.GroupKey());
    ExpectedHead([p], p.GroupKey());
    assert Expected([p][1..], p.GroupKey()) == NOTHING;
    PlusAssoc(One(p), NOTHING, NOTHING);
  }

  lemma OtherSnoc(published: seq<Published>, p: Published, k: Key)
    requires p.GroupKey() != k
    ensures Expected(published + [p], k) == Expected(published, k)
  {
    ExpectedConcat(published, [p], k);
    OtherGroup([p], k);
    PlusAssoc(Expected(published, k), NOTHING, NOTHING);
  }

  /** The loop over the expected groups. */
  method CheckWindows(r: Registry, published: seq<Published>, watermark: int, warmupSecs: nat)
    returns (flagged: set<Key>)
    ensures forall k :: k in flagged <==> Flagged(r, published, k, watermark, warmupSecs)
  {
    var expected := GroupTotals(published);
    flagged := {};
    var left := expected.Keys;
    while left != {}
      invariant left <= expected.Keys
      invariant forall k :: k in flagged <==> k !in left && Flagged(r, published, k, watermark, warmupSecs)
      decreases |left|
    {
      var k :| k in left;
      left := left - {k};
      var end := (k.window + 1) * WINDOW_SIZE_MS;
      if end + ALLOWED_LATENESS_MS <= watermark && end > BASE_TS_MS + warmupSecs * 1000 {
        if k !in r.seen || Differs(r.seen[k].total, expected[k]) {
          flagged := flagged + {k};
        }
      }
    }
  }

  // ---------- what the check can tell ----------

  /** Row `row` aggregates exactly `parts`, all of its group. */
  ghost predicate Aggregates(row: Row, parts: seq<Published>) {
    row.delta == Expected(parts, row.key) && parts != [] && forall i :: 0 <= i < |parts| ==> parts[i].GroupKey() == row.key
  }

  /** The published items behind every row of a body, row by row. */
  ghost predicate Explains(body: Body, parts: seq<seq<Published>>) {
    |parts| == |body| && forall i :: 0 <= i < |body| ==> Aggregates(body[i], parts[i])
  }

  function Flatten(parts: seq<seq<Published>>): seq<Published> {
    if parts == [] then [] else parts[0] + Flatten(parts[1..])
  }

  /** All items behind a list of distinct bodies. */
  function Delivered(explanation: seq<seq<seq<Published>>>): seq<Published> {
    if explanation == [] then [] else Flatten(explanation[0]) + Delivered(explanation[1..])
  }

  lemma {:induction false} ExpectedConcat(a: seq<Published>, b: seq<Published>, k: Key)
    ensures Expected(a + b, k) == Plus(Expected(a, k), Expected(b, k))
    decreases |a|
  {
    if a == [] {
      assert a + b == b;
    } else {
      assert (a + b)[1..] == a[1..] + b;
      ExpectedConcat(a[1..], b, k);
    }
  }

  lemma {:induction false} OtherGroup(parts: seq<Published>, k: Key)
    requires forall i :: 0 <= i < |parts| ==> parts[i].GroupKey() != k
    ensures Expected(parts, k) == NOTHING
  {
    if parts != [] {
      OtherGroup(parts[1..], k);
    }
  }

  lemma {:induction false} BodyTotals(body: Body, parts: seq<seq<Published>>, k: Key)
    requires Explains(body, parts)
    ensures Total(body, k) == Expected(Flatten(parts), k)
    decreases |body|
  {
    if body != [] {
      BodyTotals(body[1..], parts[1..], k);
      ExpectedConcat(parts[0], Flatten(parts[1..]), k);
      assert Aggregates(body[0], parts[0]);
      if body[0].key != k {
        OtherGroup(parts[0], k);
      }
    }
  }

  lemma {:induction false} DeliveredTotals(bodies: seq<Body>, explanation: seq<seq<seq<Published>>>, k: Key)
    requires |explanation| == |bodies| && forall i :: 0 <= i < |bodies| ==> Explains(bodies[i], explanation[i])
    ensures Sum(bodies, k) == Expected(Delivered(explanation), k)
    decreases |bodies|
  {
    if bodies != [] {
      DeliveredTotals(bodies[1..], explanation[1..], k);
      BodyTotals(bodies[0], explanation[0], k);
      ExpectedConcat(Flatten(explanation[0]), Delivered(explanation[1..]), k);
    }
  }

  function Group(published: seq<Published>, k: Key): multiset<Published> {
    if published == [] then multiset{}
    else (if published[0].GroupKey() == k then multiset{published[0]} else multiset{}) + Group(published[1..], k)
  }

  function Count(t: Tally): int { t.orders + t.payments }

  lemma {:induction false} GroupCounts(published: seq<Published>, k: Key)
    ensures Count(Expected(published, k)) == |Group(published, k)|
    ensures Known(published, k) <==> Group(published, k) != multiset{}
    decreases |published|
  {
    if published != [] {
      GroupCounts(published[1..], k);
      KnownCons(published, k);
    }
  }

  lemma KnownCons(published: seq<Published>, k: Key)
    requires published != []
    ensures Known(published, k) <==> published[0].GroupKey() == k || Known(published[1..], k)
  {
    if Known(published[1..], k) {
      var i :| 0 <= i < |published[1..]| && published[1..][i].GroupKey() == k;
      assert published[i + 1].GroupKey() == k;
    }
    if Known(published, k) && published[0].GroupKey() != k {
      var i :| 0 <= i < |published| && published[i].GroupKey() == k;
      assert published[1..][i - 1].GroupKey() == k;
    }
  }

  /** Two lists holding the same items of a group add up to the same, whatever their order. */
  lemma {:induction false} SameGroupSameTotal(a: seq<Published>, b: seq<Published>, k: Key)
    requires Group(a, k) == Group(b, k)
    ensures Expected(a, k) == Expected(b, k)
    decreases |a|
  {
    if a == [] {
      EmptyGroup(b, k);
    } else if a[0].GroupKey() != k {
      OtherHead(a, k);
      SameGroupSameTotal(a[1..], b, k);
    } else {
      var i := GroupRest(a, b, k);
      SameGroupSameTotal(a[1..], b[..i] + b[i + 1..], k);
      Without(b, i, k);
      ExpectedHead(a, k);
    }
  }

  lemma OtherHead(a: seq<Published>, k: Key)
    requires a != [] && a[0].GroupKey() != k
    ensures Expected(a, k) == Expected(a[1..], k) && Group(a, k) == Group(a[1..], k)
  {
    PlusAssoc(NOTHING, NOTHING, Expected(a[1..], k));
    assert multiset{} + Group(a[1..], k) == Group(a[1..], k);
  }

  /** The first item of one list is in the other; without it the groups still agree. */
  lemma GroupRest(a: seq<Published>, b: seq<Published>, k: Key) returns (i: nat)
    requires a != [] && a[0].GroupKey() == k && Group(a, k) == Group(b, k)
    ensures i < |b| && b[i] == a[0] && Group(a[1..], k) == Group(b[..i] + b[i + 1..], k)
  {
    GroupHead(a, k);
    assert a[0] in Group(a, k);
    i := GroupHas(b, k, a[0]);
    Without(b, i, k);
    SameRest(a[0], Group(a[1..], k), Group(b[..i] + b[i + 1..], k));
  }

  lemma GroupHead(a: seq<Published>, k: Key)
    requires a != [] && a[0].GroupKey() == k
    ensures Group(a, k) == multiset{a[0]} + Group(a[1..], k)
  {
  }

  lemma ExpectedHead(a: seq<Published>, k: Key)
    requires a != [] && a[0].GroupKey() == k
    ensures Expected(a, k) == Plus(One(a[0]), Expected(a[1..], k))
  {
  }

  lemma SameRest(p: Published, a: multiset<Published>, b: multiset<Published>)
    requires multiset{p} + a == multiset{p} + b
    ensures a == b
  {
    assert multiset{p} + a - multiset{p} == a && multiset{p} + b - multiset{p} == b;
  }

  lemma {:induction false} EmptyGroup(b: seq<Published>, k: Key)
    requires Group(b, k) == multiset{}
    ensures Expected(b, k) == NOTHING
  {
    if b != [] {
      EmptyGroup(b[1..], k);
    }
  }

  /** Taking one item of the group out of a list. */
  lemma Without(b: seq<Published>, i: nat, k: Key)
    requires i < |b| && b[i].GroupKey() == k
    ensures Expected(b, k) == Plus(One(b[i]), Expected(b[..i] + b[i + 1..], k))
    ensures Group(b, k) == multiset{b[i]} + Group(b[..i] + b[i + 1..], k)
  {
    var tail := [b[i]] + b[i + 1..];
    assert b == b[..i] + tail && tail[1..] == b[i + 1..];
    GroupWithout(b[..i], b[i], b[i + 1..], k);
    ExpectedWithout(b[..i], b[i], b[i + 1..], k);
  }

  lemma ExpectedWithout(a: seq<Published>, p: Published, c: seq<Published>, k: Key)
    requires p.GroupKey() == k
    ensures Expected(a + ([p] + c), k) == Plus(One(p), Expected(a + c, k))
  {
    assert ([p] + c)[1..] == c;
    ExpectedConcat(a, [p] + c, k);
    ExpectedConcat(a, c, k);
    PlusAssoc(Expected(a, k), One(p), Expected(c, k));
    PlusAssoc(One(p), Expected(a, k), Expected(c, k));
  }

  lemma GroupWithout(a: seq<Published>, p: Published, c: seq<Published>, k: Key)
    requires p.GroupKey() == k
    ensures Group(a + ([p] + c), k) == multiset{p} + Group(a + c, k)
  {
    assert ([p] + c)[1..] == c;
    GroupConcat(a, [p] + c, k);
    GroupConcat(a, c, k);
  }

  lemma {:induction false} GroupHas(b: seq<Published>, k: Key, p: Published) returns (i: nat)
    requires p in Group(b, k)
    ensures i < |b| && b[i] == p
    decreases |b|
  {
    if b[0] == p {
      i := 0;
    } else {
      i := GroupHas(b[1..], k, p);
      i := i + 1;
    }
  }

  lemma {:induction false} GroupConcat(a: seq<Published>, b: seq<Published>, k: Key)
    ensures Group(a + b, k) == Group(a, k) + Group(b, k)
    decreases |a|
  {
    if a == [] {
      assert a + b == b;
    } else {
      assert (a + b)[1..] == a[1..] + b;
      GroupConcat(a[1..], b, k);
    }
  }

  /** The registry holds the totals of the items behind the distinct bodies, and every group they are of. */
  lemma SeenIsDelivered(bodies: seq<Body>, explanation: seq<seq<seq<Published>>>, k: Key)
    requires |explanation| == |FirstArrivals(bodies)|
    requires forall i :: 0 <= i < |explanation| ==> Explains(FirstArrivals(bodies)[i], explanation[i])
    ensures Entry(VerifyAll(bodies).seen, k).total == Expected(Delivered(explanation), k)
    ensures Known(Delivered(explanation), k) ==> k in VerifyAll(bodies).seen
  {
    var arrivals := FirstArrivals(bodies);
    DistinctBodiesCountOnce(bodies);
    ArrivalsAreDistinct(bodies);
    DeliveredTotals(arrivals, explanation, k);
    if Known(Delivered(explanation), k) {
      DeliveredIsMentioned(arrivals, explanation, k);
    }
  }

  /**
    When every row received is a sum of published items, none used twice: an
    asserted group is flagged exactly when one of its items is in no distinct body.
  */
  lemma FlaggedExactlyWhenMissing(bodies: seq<Body>, explanation: seq<seq<seq<Published>>>,
                                  published: seq<Published>, k: Key, watermark: int, warmupSecs: nat)
    requires |explanation| == |FirstArrivals(bodies)|
    requires forall i :: 0 <= i < |explanation| ==> Explains(FirstArrivals(bodies)[i], explanation[i])
    requires Group(Delivered(explanation), k) <= Group(published, k)
    requires Known(published, k) && Asserted(k, watermark, warmupSecs)
    ensures Flagged(VerifyAll(bodies), published, k, watermark, warmupSecs) <==>
      Group(Delivered(explanation), k) != Group(published, k)
  {
    SeenIsDelivered(bodies, explanation, k);
    TotalsTellGroups(Delivered(explanation), published, k);
  }

  /** Of items that are all published, the totals agree exactly when none is missing. */
  lemma TotalsTellGroups(delivered: seq<Published>, published: seq<Published>, k: Key)
    requires Group(delivered, k) <= Group(published, k)
    ensures Differs(Expected(delivered, k), Expected(published, k)) <==> Group(delivered, k) != Group(published, k)
    ensures Group(delivered, k) == Group(published, k) && Known(published, k) ==> Known(delivered, k)
  {
    GroupCounts(delivered, k);
    GroupCounts(published, k);
    if Group(delivered, k) == Group(published, k) {
      SameGroupSameTotal(delivered, published, k);
    } else {
      SmallerCount(Group(delivered, k), Group(published, k));
    }
  }

  lemma SmallerCount(a: multiset<Published>, b: multiset<Published>)
    requires a <= b && a != b
    ensures |a| < |b|
  {
    assert b == a + (b - a);
    assert |b - a| > 0;
  }

  lemma {:induction false} DeliveredIsMentioned(bodies: seq<Body>, explanation: seq<seq<seq<Published>>>, k: Key)
    requires |explanation| == |bodies| && forall i :: 0 <= i < |bodies| ==> Explains(bodies[i], explanation[i])
    requires Known(Delivered(explanation), k)
    ensures MentionedBy(bodies, k)
    decreases |bodies|
  {
    var first, later := Flatten(explanation[0]), Delivered(explanation[1..]);
    KnownConcat(first, later, k);
    if Known(first, k) {
      FlattenIsMentioned(bodies[0], explanation[0], k);
      assert bodies[0] in bodies;
    } else {
      DeliveredIsMentioned(bodies[1..], explanation[1..], k);
      var b :| b in bodies[1..] && Mentions(b, k);
      assert b in bodies;
    }
  }

  lemma KnownConcat(a: seq<Published>, b: seq<Published>, k: Key)
    ensures Known(a + b, k) ==> Known(a, k) || Known(b, k)
  {
    if Known(a + b, k) {
      var i :| 0 <= i < |a + b| && (a + b)[i].GroupKey() == k;
      if i < |a| {
        assert a[i].GroupKey() == k;
      } else {
        assert b[i - |a|].GroupKey() == k;
      }
    }
  }

  lemma {:induction false} FlattenIsMentioned(body: Body, parts: seq<seq<Published>>, k: Key)
    requires Explains(body, parts) && Known(Flatten(parts), k)
    ensures Mentions(body, k)
    decreases |body|
  {
    KnownConcat(parts[0], Flatten(parts[1..]), k);
    assert Aggregates(body[0], parts[0]);
    if Known(parts[0], k) {
      assert body[0].key == k;
    } else {
      FlattenIsMentioned(body[1..], parts[1..], k);
      MentionsCons(body, k);
    }
  }

  // ---------- the shape of a gap ----------

  function CountTrue(flags: seq<bool>): nat {
    if flags == [] then 0 else (if flags[0] then 1 else 0) + CountTrue(flags[1..])
  }

  predicate AllTrue(flags: seq<bool>) {
    forall i :: 0 <= i < |flags| ==> flags[i]
  }

  predicate IsPrefixGap(flags: seq<bool>, missing: nat) {
    0 < missing < |flags| && AllTrue(flags[..missing])
  }

  lemma {:induction false} CountConcat(a: seq<bool>, b: seq<bool>)
    ensures CountTrue(a + b) == CountTrue(a) + CountTrue(b)
    decreases |a|
  {
    if a == [] {
      assert a + b == b;
    } else {
      assert (a + b)[1..] == a[1..] + b;
      CountConcat(a[1..], b);
    }
  }

  lemma {:induction false} CountExtremes(flags: seq<bool>)
    ensures CountTrue(flags) <= |flags|
    ensures AllTrue(flags) <==> CountTrue(flags) == |flags|
    ensures CountTrue(flags) == 0 <==> NoneTrue(flags)
    decreases |flags|
  {
    if flags != [] {
      CountExtremes(flags[1..]);
      assert forall i :: 0 < i < |flags| ==> flags[i] == flags[1..][i - 1];
    }
  }

  predicate NoneTrue(flags: seq<bool>) {
    forall i :: 0 <= i < |flags| ==> !flags[i]
  }

  /** The flags before `k` are set and those from `k` on are not exactly when the first `k` are set and `k` are set in all. */
  lemma CutAt(flags: seq<bool>, k: nat)
    requires k <= |flags|
    ensures AllTrue(flags[..k]) && NoneTrue(flags[k..]) <==> AllTrue(flags[..k]) && CountTrue(flags) == k
  {
    assert flags == flags[..k] + flags[k..];
    CountConcat(flags[..k], flags[k..]);
    CountExtremes(flags[..k]);
    CountExtremes(flags[k..]);
  }

  /** Given how many flags are set, the test holds exactly for a non-empty run of set flags then a non-empty run of unset ones. */
  lemma PrefixGapExactly(flags: seq<bool>)
    ensures IsPrefixGap(flags, CountTrue(flags)) <==>
      exists k :: 0 < k < |flags| && AllTrue(flags[..k]) && NoneTrue(flags[k..])
  {
    forall k | 0 < k < |flags|
      ensures AllTrue(flags[..k]) && NoneTrue(flags[k..]) <==> AllTrue(flags[..k]) && CountTrue(flags) == k
    {
      CutAt(flags, k);
    }
  }

  // ---------- the receiver ----------

  class Receiver {
    var bodies: set<Body>
    var seen: map<Key, Seen>
    var rows: nat
    var unique: nat
    var duplicates: nat

    constructor ()
      ensures Abs() == EMPTY
    {
      bodies, seen, rows, unique, duplicates := {}, map[], 0, 0, 0;
    }

    function Abs(): Registry
      reads this
    {
      Registry(bodies, seen, rows, unique, duplicates)
    }

    method Receive(body: Body)
      modifies this
      ensures Abs() == VerifyBody(old(Abs()), body)
    {
      var repeated := body in bodies;
      bodies := bodies + {body};
      var i := 0;
      assert body[0..] == body;
      while i < |body|
        invariant 0 <= i <= |body|
        invariant AddRows(Abs(), body[i..], repeated) == VerifyBody(old(Abs()), body)
      {
        assert body[i..][1..] == body[i + 1..];
        ghost var before := Abs();
        var entry := Entry(seen, body[i].key);
        rows := rows + 1;
        if repeated {
          seen := seen[body[i].key := entry.(retried := entry.retried + 1)];
          duplicates := duplicates + 1;
        } else {
          if entry.emissions == 0 {
            unique := unique + 1;
          } else {
            duplicates := duplicates + 1;
          }
          entry := entry.(emissions := entry.emissions + 1, total := Plus(entry.total, body[i].delta));
          seen := seen[body[i].key := entry];
        }
        assert Abs() == AddRow(before, body[i], repeated);
        i := i + 1;
      }
    }
  }
}
