/**
  What a sink can always do: write until the channel is full and no further, have
  everything it wrote received, and be told the backlog whenever it is idle.
*/
module ChannelCapacity {
  import opened Wrappers
  import opened Records
  import opened Sequences
  import opened ChannelBacklog

  lemma {:induction false} RunConcat(s: State, first: seq<Action>, later: seq<Action>)
    requires Run(s, first).Some?
    ensures Run(s, first + later) == Run(Run(s, first).value, later)
    decreases |first|
  {
    if first == [] {
      assert first + later == later;
    } else {
      assert (first + later)[1..] == first[1..] + later;
      RunConcat(Step(s, first[0]), first[1..], later);
    }
  }

  lemma RunThree(s: State, a: Action, b: Action, c: Action)
    requires Enabled(s, a) && Enabled(Step(s, a), b) && Enabled(Step(Step(s, a), b), c)
    ensures Run(s, [a, b, c]) == Some(Step(Step(Step(s, a), b), c))
  {
    var t := Step(s, a);
    assert [a, b, c][1..] == [b, c] && [b, c][1..] == [c] && [c][1..] == [];
    assert Run(Step(Step(t, b), c), []) == Some(Step(Step(t, b), c));
    assert Run(Step(t, b), [c]) == Some(Step(Step(t, b), c));
    assert Run(t, [b, c]) == Some(Step(Step(t, b), c));
  }

  /** Idle in the given place, nothing else of the run so far changed. */
  predicate Wrote(s: State, t: State, queue: seq<Batch>) {
    && t.phase.Idle? && t.capacity == s.capacity && t.queue == queue
    && t.received == s.received && t.answers == s.answers
  }

  /** With a slot free a write runs to its end, and its batch is the newest on the channel. */
  lemma WriteCompletes(s: State, b: Batch) returns (steps: seq<Action>)
    requires s.phase.Idle? && |s.queue| < s.capacity
    ensures Run(s, steps).Some? && Wrote(s, Run(s, steps).value, s.queue + [b])
  {
    var sent := Step(s, Send(b));
    var recorded := Step(sent, Record);
    var trims := TrimEnds(Step(recorded, ReadCapacity));
    RunThree(s, Send(b), Record, ReadCapacity);
    RunConcat(s, [Send(b), Record, ReadCapacity], trims);
    steps := [Send(b), Record, ReadCapacity] + trims;
  }

  /** Batches can be written until the channel holds its capacity of them, in the order written. */
  lemma {:induction false} FillsToCapacity(s: State, batches: seq<Batch>) returns (steps: seq<Action>)
    requires s.phase.Idle? && |s.queue| + |batches| <= s.capacity
    ensures Run(s, steps).Some? && Wrote(s, Run(s, steps).value, s.queue + batches)
    decreases |batches|
  {
    if batches == [] {
      steps := [];
      assert s.queue + [] == s.queue;
    } else {
      var first := WriteCompletes(s, batches[0]);
      var later := FillsToCapacity(Run(s, first).value, batches[1..]);
      RunConcat(s, first, later);
      steps := first + later;
      assert s.queue + [batches[0]] + batches[1..] == s.queue + batches;
    }
  }

  /** Any batches at all pass through a channel of any capacity but zero, in order and none left. */
  lemma {:induction false} DeliversAll(s: State, batches: seq<Batch>) returns (steps: seq<Action>)
    requires s.phase.Idle? && s.capacity > 0 && s.queue == []
    ensures Run(s, steps).Some?
    ensures var t := Run(s, steps).value;
      t.phase.Idle? && t.capacity == s.capacity && t.queue == [] && t.received == s.received + batches
    decreases |batches|
  {
    if batches == [] {
      steps := [];
      assert s.received + [] == s.received;
    } else {
      var first := DeliversOne(s, batches[0]);
      var later := DeliversAll(Run(s, first).value, batches[1..]);
      RunConcat(s, first, later);
      steps := first + later;
      assert s.received + [batches[0]] + batches[1..] == s.received + batches;
    }
  }

  lemma DeliversOne(s: State, b: Batch) returns (steps: seq<Action>)
    requires s.phase.Idle? && s.capacity > 0 && s.queue == []
    ensures Run(s, steps).Some?
    ensures var t := Run(s, steps).value;
      t.phase.Idle? && t.capacity == s.capacity && t.queue == [] && t.received == s.received + [b]
  {
    var written := WriteCompletes(s, b);
    var t := Run(s, written).value;
    assert t.queue == [b];
    RunConcat(s, written, [Receive]);
    assert [Receive][1..] == [] && Run(Step(t, Receive), []) == Some(Step(t, Receive));
    steps := written + [Receive];
  }

  /** An idle sink that is asked answers the rows now on its channel, and changes nothing. */
  lemma AskedWhileIdle(s: State)
    requires Inv(s) && s.phase.Idle?
    ensures Run(s, [Ask, Reply]) == Some(s.(answers := s.answers + [Answer(Rows(s.queue), s.queue)]))
  {
    var asked := Step(s, Ask);
    StepKeepsInv(s, Ask);
    StepKeepsInv(asked, Reply);
    var replied := Step(asked, Reply);
    assert [Ask, Reply][1..] == [Reply] && [Reply][1..] == [];
    assert Run(replied, []) == Some(replied);
    assert Run(asked, [Reply]) == Some(replied);
    assert Truthful(replied.answers) && replied.answers[|s.answers|].backlog == s.queue;
  }

  /** The row total of a list of batches is the sum of their rows, one by one. */
  lemma RowsAddUp(batches: seq<Batch>, b: Batch)
    ensures Rows([]) == 0 && Rows(batches + [b]) == Rows(batches) + b.rows
  {
    RowsOfConcat(batches, [b]);
    assert [b][1..] == [];
  }
}
