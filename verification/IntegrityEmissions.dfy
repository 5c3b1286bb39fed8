/**
  What the final check of the windows can tell about emissions. The pipeline sends
  each group's total in numbered emissions; a delivery carries one of them, and a
  re-send carries the same one again. The receiver sees bodies without numbers.
*/
module IntegrityEmissions {
  import opened IntegrityVerifier

  datatype Delivery = Delivery(emission: nat, body: Body)

  /** Every delivery, first or repeated, carries its emission's body. */
  ghost predicate Carries(deliveries: seq<Delivery>, emissions: seq<Body>) {
    forall d :: d in deliveries ==> d.emission < |emissions| && d.body == emissions[d.emission]
  }

  function Bodies(deliveries: seq<Delivery>): (bodies: seq<Body>)
    ensures |bodies| == |deliveries|
    ensures forall i :: 0 <= i < |bodies| ==> bodies[i] == deliveries[i].body
  {
    if deliveries == [] then [] else [deliveries[0].body] + Bodies(deliveries[1..])
  }

  ghost predicate Arrived(deliveries: seq<Delivery>, emission: nat) {
    exists d :: d in deliveries && d.emission == emission
  }

  /** The rows of every emission sum published items of their groups. */
  ghost predicate Explained(emissions: seq<Body>, parts: seq<seq<seq<Published>>>) {
    |parts| == |emissions| && forall i :: 0 <= i < |emissions| ==> Explains(emissions[i], parts[i])
  }

  /** Some emission with a row for the group never arrived. */
  ghost predicate Lost(deliveries: seq<Delivery>, emissions: seq<Body>, k: Key) {
    exists i :: 0 <= i < |emissions| && Mentions(emissions[i], k) && !Arrived(deliveries, i)
  }

  /** Some emission with a row for the group has the content of an earlier one. */
  ghost predicate Alike(emissions: seq<Body>, k: Key) {
    exists i, j :: 0 <= i < j < |emissions| && emissions[i] == emissions[j] && Mentions(emissions[j], k)
  }

  // ---------- what the receiver counts ----------

  /** The emissions counted: of those with one content the first, if that content came at all. */
  function Counted(emissions: seq<Body>, bodies: seq<Body>): seq<Body> {
    if emissions == [] then []
    else
      var init, last := emissions[..|emissions| - 1], emissions[|emissions| - 1];
      Counted(init, bodies) + if last in bodies && last !in init then [last] else []
  }

  /** An emission with a row for the group is not counted. */
  predicate Skips(emissions: seq<Body>, bodies: seq<Body>, k: Key) {
    emissions != [] &&
    var init, last := emissions[..|emissions| - 1], emissions[|emissions| - 1];
    Skips(init, bodies, k) || (!(last in bodies && last !in init) && Mentions(last, k))
  }

  lemma {:induction false} CountedOnce(emissions: seq<Body>, bodies: seq<Body>)
    ensures NoRepeats(Counted(emissions, bodies))
    ensures forall b :: b in Counted(emissions, bodies) <==> b in bodies && b in emissions
    decreases |emissions|
  {
    if emissions != [] {
      var init, last := emissions[..|emissions| - 1], emissions[|emissions| - 1];
      CountedOnce(init, bodies);
      assert forall b :: b in emissions <==> b in init || b == last;
    }
  }

  /** Every row stands for at least one item. */
  predicate Weighty(body: Body) {
    body != [] ==> Count(body[0].delta) >= 1 && Weighty(body[1..])
  }

  predicate AllWeighty(emissions: seq<Body>) {
    emissions != [] ==> Weighty(emissions[|emissions| - 1]) && AllWeighty(emissions[..|emissions| - 1])
  }

  lemma {:induction false} ExplainedIsWeighty(body: Body, parts: seq<seq<Published>>)
    requires Explains(body, parts)
    ensures Weighty(body)
    decreases |body|
  {
    if body != [] {
      var row, items := body[0], parts[0];
      assert Aggregates(row, items);
      assert items[0].GroupKey() == row.key;
      GroupCounts(items, row.key);
      NotEmpty(Group(items, row.key));
      ExplainedIsWeighty(body[1..], parts[1..]);
    }
  }

  lemma {:induction false} ExplainedAreWeighty(emissions: seq<Body>, parts: seq<seq<seq<Published>>>)
    requires Explained(emissions, parts)
    ensures AllWeighty(emissions)
    decreases |emissions|
  {
    if emissions != [] {
      var n := |emissions| - 1;
      ExplainedIsWeighty(emissions[n], parts[n]);
      ExplainedAreWeighty(emissions[..n], parts[..n]);
    }
  }

  lemma NotEmpty(items: multiset<Published>)
    requires items != multiset{}
    ensures |items| >= 1
  {
  }

  lemma CountHead(body: Body, k: Key)
    requires body != []
    ensures Count(Total(body, k)) == Count(Share(body[0], k)) + Count(Total(body[1..], k))
  {
  }

  lemma ShareCounts(row: Row, k: Key)
    ensures Count(Share(row, k)) == if row.key == k then Count(row.delta) else 0
  {
  }

  lemma {:induction false} TotalIsNoLoss(body: Body, k: Key)
    requires Weighty(body)
    ensures Count(Total(body, k)) >= 0
    decreases |body|
  {
    if body != [] {
      TotalIsNoLoss(body[1..], k);
      CountHead(body, k);
      ShareCounts(body[0], k);
    }
  }

  lemma {:induction false} TotalCounts(body: Body, k: Key)
    requires Weighty(body) && Mentions(body, k)
    ensures Count(Total(body, k)) >= 1
    decreases |body|
  {
    MentionsCons(body, k);
    CountHead(body, k);
    ShareCounts(body[0], k);
    if body[0].key == k {
      TotalIsNoLoss(body[1..], k);
    } else {
      TotalCounts(body[1..], k);
    }
  }

  lemma {:induction false} UnmentionedTotal(body: Body, k: Key)
    requires !Mentions(body, k)
    ensures Total(body, k) == NOTHING
    decreases |body|
  {
    if body != [] {
      MentionsCons(body, k);
      UnmentionedTotal(body[1..], k);
      PlusAssoc(NOTHING, NOTHING, NOTHING);
    }
  }

  lemma SumSnoc(init: seq<Body>, last: Body, k: Key)
    ensures Sum(init + [last], k) == Plus(Sum(init, k), Total(last, k))
  {
    SumConcat(init, [last], k);
    SumOne(last, k);
  }

  lemma SumOne(b: Body, k: Key)
    ensures Sum([b], k) == Total(b, k)
  {
    assert [b][1..] == [];
    PlusAssoc(Total(b, k), NOTHING, NOTHING);
  }

  /** Counting falls short of the emissions exactly when it skips one that matters to the group. */
  lemma {:induction false} SkippingFallsShort(emissions: seq<Body>, bodies: seq<Body>, k: Key)
    requires AllWeighty(emissions)
    ensures Short(Sum(Counted(emissions, bodies), k), Sum(emissions, k), Skips(emissions, bodies, k))
    decreases |emissions|
  {
    if emissions == [] {
      assert Sum(emissions, k) == NOTHING;
    } else {
      var init, last := emissions[..|emissions| - 1], emissions[|emissions| - 1];
      SkippingFallsShort(init, bodies, k);
      CountsLast(emissions, bodies, k);
      LastMatters(last, k);
      ShortGrows(Sum(Counted(init, bodies), k), Sum(init, k), Skips(init, bodies, k), Total(last, k),
                 last in bodies && last !in init, Mentions(last, k));
    }
  }

  lemma LastMatters(b: Body, k: Key)
    requires Weighty(b)
    ensures Matters(Total(b, k), Mentions(b, k))
  {
    if Mentions(b, k) {
      TotalCounts(b, k);
    } else {
      UnmentionedTotal(b, k);
    }
  }

  predicate Matters(more: Tally, mentioned: bool) {
    if mentioned then Count(more) >= 1 else more == NOTHING
  }

  /** `part` counts no more than `whole`: less if something was skipped, and otherwise it is the same tally. */
  predicate Short(part: Tally, whole: Tally, skipped: bool) {
    if skipped then Count(part) < Count(whole) else part == whole
  }

  lemma ShortGrows(part: Tally, whole: Tally, skipped: bool, more: Tally, counted: bool, mentioned: bool)
    requires Short(part, whole, skipped)
    requires Matters(more, mentioned)
    ensures Short(if counted then Plus(part, more) else part, Plus(whole, more), skipped || (!counted && mentioned))
  {
  }

  lemma CountsLast(emissions: seq<Body>, bodies: seq<Body>, k: Key)
    requires emissions != []
    ensures var init, last := emissions[..|emissions| - 1], emissions[|emissions| - 1];
      && Sum(emissions, k) == Plus(Sum(init, k), Total(last, k))
      && Sum(Counted(emissions, bodies), k) ==
        if last in bodies && last !in init then Plus(Sum(Counted(init, bodies), k), Total(last, k))
        else Sum(Counted(init, bodies), k)
  {
    var init, last := emissions[..|emissions| - 1], emissions[|emissions| - 1];
    assert emissions == init + [last];
    SumSnoc(init, last, k);
    if last in bodies && last !in init {
      SumSnoc(Counted(init, bodies), last, k);
    } else {
      assert Counted(emissions, bodies) == Counted(init, bodies);
    }
  }

  // ---------- skipped means lost or alike ----------

  lemma {:induction false} SkippedOne(emissions: seq<Body>, bodies: seq<Body>, k: Key) returns (i: nat)
    requires Skips(emissions, bodies, k)
    ensures i < |emissions| && Mentions(emissions[i], k)
    ensures emissions[i] !in bodies || emissions[i] in emissions[..i]
    decreases |emissions|
  {
    var n := |emissions| - 1;
    if Skips(emissions[..n], bodies, k) {
      i := SkippedOne(emissions[..n], bodies, k);
      assert emissions[..n][..i] == emissions[..i];
    } else {
      i := n;
    }
  }

  lemma {:induction false} SkipsOne(emissions: seq<Body>, bodies: seq<Body>, k: Key, i: nat)
    requires i < |emissions| && Mentions(emissions[i], k)
    requires emissions[i] !in bodies || emissions[i] in emissions[..i]
    ensures Skips(emissions, bodies, k)
    decreases |emissions|
  {
    var n := |emissions| - 1;
    if i < n {
      assert emissions[..n][..i] == emissions[..i];
      SkipsOne(emissions[..n], bodies, k, i);
    }
  }

  lemma BodyHasDelivery(deliveries: seq<Delivery>, b: Body)
    requires b in Bodies(deliveries)
    ensures exists d :: d in deliveries && d.body == b
  {
    var i :| 0 <= i < |deliveries| && Bodies(deliveries)[i] == b;
    assert deliveries[i] in deliveries;
  }

  lemma DeliveryHasBody(deliveries: seq<Delivery>, d: Delivery)
    requires d in deliveries
    ensures d.body in Bodies(deliveries)
  {
    var i :| 0 <= i < |deliveries| && deliveries[i] == d;
    assert Bodies(deliveries)[i] == d.body;
  }

  lemma AlikePair(emissions: seq<Body>, i: nat, j: nat, k: Key)
    requires i < |emissions| && j < |emissions| && i != j && Mentions(emissions[i], k)
    ensures emissions[i] == emissions[j] ==> Alike(emissions, k)
  {
  }

  lemma SkipsExactly(deliveries: seq<Delivery>, emissions: seq<Body>, k: Key)
    requires Carries(deliveries, emissions)
    ensures Skips(emissions, Bodies(deliveries), k) <==> Lost(deliveries, emissions, k) || Alike(emissions, k)
  {
    var bodies := Bodies(deliveries);
    if Skips(emissions, bodies, k) {
      var i := SkippedOne(emissions, bodies, k);
      if emissions[i] in emissions[..i] {
        var j :| 0 <= j < i && emissions[j] == emissions[i];
        assert Alike(emissions, k);
      } else {
        forall d | d in deliveries ensures d.emission != i {
          DeliveryHasBody(deliveries, d);
        }
        assert !Arrived(deliveries, i);
      }
    }
    if Alike(emissions, k) {
      var i, j :| 0 <= i < j < |emissions| && emissions[i] == emissions[j] && Mentions(emissions[j], k);
      assert emissions[..j][i] == emissions[j];
      SkipsOne(emissions, bodies, k, j);
    } else if Lost(deliveries, emissions, k) {
      var i :| 0 <= i < |emissions| && Mentions(emissions[i], k) && !Arrived(deliveries, i);
      forall d | d in deliveries ensures d.body != emissions[i] {
        AlikePair(emissions, i, d.emission, k);
      }
      if emissions[i] in bodies {
        BodyHasDelivery(deliveries, emissions[i]);
      }
      SkipsOne(emissions, bodies, k, i);
    }
  }

  // ---------- the final check ----------

  lemma CountedIsReceived(deliveries: seq<Delivery>, emissions: seq<Body>, k: Key)
    requires Carries(deliveries, emissions)
    ensures Entry(VerifyAll(Bodies(deliveries)).seen, k).total == Sum(Counted(emissions, Bodies(deliveries)), k)
  {
    var bodies := Bodies(deliveries);
    DistinctBodiesCountOnce(bodies);
    ArrivalsAreDistinct(bodies);
    CountedOnce(emissions, bodies);
    forall b | b in bodies ensures b in emissions {
      BodyHasDelivery(deliveries, b);
    }
    SumOfPermutation(FirstArrivals(bodies), Counted(emissions, bodies), k);
  }

  lemma {:induction false} KnownIsMentioned(emissions: seq<Body>, parts: seq<seq<seq<Published>>>, k: Key) returns (i: nat)
    requires Explained(emissions, parts) && Known(Delivered(parts), k)
    ensures i < |emissions| && Mentions(emissions[i], k)
  {
    DeliveredIsMentioned(emissions, parts, k);
    var b :| b in emissions && Mentions(b, k);
    i :| 0 <= i < |emissions| && emissions[i] == b;
  }

  lemma ArrivedIsSeen(deliveries: seq<Delivery>, emissions: seq<Body>, i: nat, k: Key)
    requires Carries(deliveries, emissions) && i < |emissions| && Mentions(emissions[i], k) && Arrived(deliveries, i)
    ensures k in VerifyAll(Bodies(deliveries)).seen
  {
    var d :| d in deliveries && d.emission == i;
    DeliveryHasBody(deliveries, d);
    DistinctBodiesCountOnce(Bodies(deliveries));
    assert MentionedBy(Bodies(deliveries), k);
  }

  /**
    Whatever is re-sent, lost or reordered: an asserted group whose emissions
    partition its published items is flagged exactly when one of its emissions was
    lost or has the content of an earlier one.
  */
  lemma FlaggedExactlyByEmission(deliveries: seq<Delivery>, emissions: seq<Body>, parts: seq<seq<seq<Published>>>,
                                 published: seq<Published>, k: Key, watermark: int, warmupSecs: nat)
    requires Carries(deliveries, emissions) && Explained(emissions, parts)
    requires Group(Delivered(parts), k) == Group(published, k)
    requires Known(published, k) && Asserted(k, watermark, warmupSecs)
    ensures Flagged(VerifyAll(Bodies(deliveries)), published, k, watermark, warmupSecs) <==>
      Lost(deliveries, emissions, k) || Alike(emissions, k)
  {
    var bodies := Bodies(deliveries);
    ExplainedAreWeighty(emissions, parts);
    SkippingFallsShort(emissions, bodies, k);
    SkipsExactly(deliveries, emissions, k);
    CountedIsReceived(deliveries, emissions, k);
    DeliveredTotals(emissions, parts, k);
    SameGroupSameTotal(Delivered(parts), published, k);
    GroupCounts(published, k);
    GroupCounts(Delivered(parts), k);
    var i := KnownIsMentioned(emissions, parts, k);
    if !Lost(deliveries, emissions, k) {
      ArrivedIsSeen(deliveries, emissions, i, k);
    }
  }

  /** When every emission of the group arrived, it passes exactly when no two of them are alike. */
  lemma AllArrivedExactly(deliveries: seq<Delivery>, emissions: seq<Body>, parts: seq<seq<seq<Published>>>,
                          published: seq<Published>, k: Key, watermark: int, warmupSecs: nat)
    requires Carries(deliveries, emissions) && Explained(emissions, parts)
    requires Group(Delivered(parts), k) == Group(published, k)
    requires Known(published, k) && Asserted(k, watermark, warmupSecs)
    requires forall i: nat :: i < |emissions| && Mentions(emissions[i], k) ==> Arrived(deliveries, i)
    ensures !Flagged(VerifyAll(Bodies(deliveries)), published, k, watermark, warmupSecs) <==> !Alike(emissions, k)
  {
    FlaggedExactlyByEmission(deliveries, emissions, parts, published, k, watermark, warmupSecs);
  }

  /** Two orders of one group with equal amounts, each delivered in a body of its own, are taken for a re-send. */
  lemma TwinOrdersAreFlagged(p: Published, q: Published, watermark: int, warmupSecs: nat)
    requires p.GroupKey() == q.GroupKey() && p.isOrder && q.isOrder && p.cents == q.cents
    requires Asserted(p.GroupKey(), watermark, warmupSecs)
    ensures
      var body := [Row(p.GroupKey(), One(p))];
      var deliveries := [Delivery(0, body), Delivery(1, body)];
      && Carries(deliveries, [body, body]) && Arrived(deliveries, 0) && Arrived(deliveries, 1)
      && Explained([body, body], [[[p]], [[q]]]) && Delivered([[[p]], [[q]]]) == [p, q]
      && Flagged(VerifyAll(Bodies(deliveries)), [p, q], p.GroupKey(), watermark, warmupSecs)
  {
    var k := p.GroupKey();
    var body := [Row(k, One(p))];
    var emissions := [body, body];
    var deliveries := [Delivery(0, body), Delivery(1, body)];
    var parts := [[[p]], [[q]]];
    assert deliveries[0] in deliveries && deliveries[1] in deliveries;
    OneItem(p);
    OneItem(q);
    assert Aggregates(body[0], [p]) && Aggregates(body[0], [q]);
    assert Explains(body, [[p]]) && Explains(body, [[q]]);
    assert parts[1..] == [[[q]]] && [[[q]]][1..] == [];
    FlattenOne(p);
    FlattenOne(q);
    assert Delivered(parts[1..][1..]) == [];
    assert Delivered(parts[1..]) == [q] + [] == [q];
    assert Delivered(parts) == [p] + [q] == [p, q];
    assert body[0].key == k && emissions[0] == emissions[1] && Mentions(emissions[1], k) && Alike(emissions, k);
    assert [p, q][0].GroupKey() == k;
    FlaggedExactlyByEmission(deliveries, emissions, parts, [p, q], k, watermark, warmupSecs);
  }

  lemma FlattenOne(p: Published)
    ensures Flatten([[p]]) == [p]
  {
    assert [[p]][1..] == [] && Flatten([[p]][1..]) == [];
  }

  lemma OneItem(p: Published)
    ensures Expected([p], p.GroupKey()) == One(p)
  {
    assert [p][1..] == [];
    PlusAssoc(One(p), NOTHING, NOTHING);
  }
}
