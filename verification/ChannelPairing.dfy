/**
  What each call on the registry, a sink or a source is answered, told from the
  calls and answers before it.
*/
module ChannelPairing {
  import opened Records
  import opened Sequences
  import opened ChannelBridge

  // ---------- histories ----------

  ghost predicate AllCallable(calls: seq<Call>) {
    forall c :: c in calls ==> Callable(c)
  }

  /** Call `i` asked for the sink of `name` and got it. */
  ghost predicate GotSink(calls: seq<Call>, answers: seq<Answer>, i: int, name: string) {
    && 0 <= i < |calls| && i < |answers|
    && calls[i].Sink? && calls[i].name == name && answers[i].Registry? && answers[i].outcome.Granted?
  }

  ghost predicate GotSource(calls: seq<Call>, answers: seq<Answer>, i: int, name: string) {
    && 0 <= i < |calls| && i < |answers|
    && calls[i].Source? && calls[i].name == name && answers[i].Registry? && answers[i].outcome.Granted?
  }

  /** Call `i` dropped the sink of `name`. */
  ghost predicate Dropped(calls: seq<Call>, answers: seq<Answer>, i: int, name: string) {
    0 <= i < |calls| && i < |answers| && calls[i] == DropSink(name) && answers[i] == Done
  }

  ghost predicate RemembersSinks(sinks: map<string, Half>, calls: seq<Call>, answers: seq<Answer>) {
    && (forall n :: n in sinks <==> exists i :: GotSink(calls, answers, i, n))
    && (forall i, n :: GotSink(calls, answers, i, n) ==>
      n in sinks && sinks[n] == Half(answers[i].outcome.channel, calls[i].schema, calls[i].buffer))
  }

  ghost predicate RemembersSources(sources: map<string, Half>, calls: seq<Call>, answers: seq<Answer>) {
    && (forall n :: n in sources <==> exists i :: GotSource(calls, answers, i, n))
    && (forall i, n :: GotSource(calls, answers, i, n) ==>
      n in sources && sources[n] == Half(answers[i].outcome.channel, calls[i].schema, calls[i].buffer))
  }

  ghost predicate RemembersDrops(dropped: set<string>, calls: seq<Call>, answers: seq<Answer>) {
    forall n :: n in dropped <==> exists i :: Dropped(calls, answers, i, n)
  }

  ghost predicate Created(answers: seq<Answer>, count: nat) {
    forall i :: 0 <= i < |answers| && answers[i].Registry? && answers[i].outcome.Granted? ==>
      answers[i].outcome.channel < count
  }

  /** The halves and drops of the world are those of the history. */
  ghost predicate Remembers(w: World, calls: seq<Call>, answers: seq<Answer>) {
    && |answers| == |calls| && Created(answers, |w.pipes|)
    && RemembersSinks(w.sinks, calls, answers) && RemembersSources(w.sources, calls, answers)
    && RemembersDrops(w.dropped, calls, answers)
  }

  lemma RunCons(w: World, c: Call, rest: seq<Call>)
    requires Inv(w) && Callable(c) && AllCallable(rest)
    ensures Inv(Step(w, c).0) && AllCallable([c] + rest)
    ensures Run(w, [c] + rest) == (Run(Step(w, c).0, rest).0, [Step(w, c).1] + Run(Step(w, c).0, rest).1)
  {
    StepKeepsInv(w, c);
    assert ([c] + rest)[1..] == rest;
  }

  lemma {:induction false} RunSnoc(w: World, calls: seq<Call>, c: Call)
    requires Inv(w) && AllCallable(calls) && Callable(c)
    ensures Inv(Run(w, calls).0) && AllCallable(calls + [c])
    ensures Run(w, calls + [c]) == (Step(Run(w, calls).0, c).0, Run(w, calls).1 + [Step(Run(w, calls).0, c).1])
    decreases |calls|
  {
    RunKeepsInv(w, calls);
    if calls == [] {
      RunCons(w, c, []);
      Regroup([c], [], []);
      Regroup([Step(w, c).1], [], []);
      assert [] + [c] == [c] && [] + [Step(w, c).1] == [Step(w, c).1];
    } else {
      var first, rest := calls[0], calls[1..];
      assert calls == [first] + rest;
      Regroup([first], rest, [c]);
      RunCons(w, first, rest);
      RunSnoc(Step(w, first).0, rest, c);
      RunCons(w, first, rest + [c]);
      var (v, answers) := Run(Step(w, first).0, rest);
      Regroup([Step(w, first).1], answers, [Step(v, c).1]);
    }
  }

  // ---------- one call more ----------

  predicate IsGrant(a: Answer) { a.Registry? && a.outcome.Granted? }

  lemma SinksGrow(sinks: map<string, Half>, calls: seq<Call>, answers: seq<Answer>, c: Call, a: Answer)
    requires |answers| == |calls| && RemembersSinks(sinks, calls, answers)
    requires c.Sink? && IsGrant(a) ==> c.name !in sinks
    ensures RemembersSinks(
      if c.Sink? && IsGrant(a) then sinks[c.name := Half(a.outcome.channel, c.schema, c.buffer)] else sinks,
      calls + [c], answers + [a])
  {
    var cs, xs := calls + [c], answers + [a];
    var later := if c.Sink? && IsGrant(a) then sinks[c.name := Half(a.outcome.channel, c.schema, c.buffer)] else sinks;
    assert forall i, n :: i < |calls| ==> (GotSink(cs, xs, i, n) <==> GotSink(calls, answers, i, n));
    assert forall n :: GotSink(cs, xs, |calls|, n) <==> c.Sink? && IsGrant(a) && c.name == n;
    forall n ensures n in later <==> exists i :: GotSink(cs, xs, i, n) {
      assert GotSink(cs, xs, |calls|, n) <==> c.Sink? && IsGrant(a) && c.name == n;
      if n in sinks {
        var i :| GotSink(calls, answers, i, n);
        assert GotSink(cs, xs, i, n);
      }
    }
  }

  lemma SourcesGrow(sources: map<string, Half>, calls: seq<Call>, answers: seq<Answer>, c: Call, a: Answer)
    requires |answers| == |calls| && RemembersSources(sources, calls, answers)
    requires c.Source? && IsGrant(a) ==> c.name !in sources
    ensures RemembersSources(
      if c.Source? && IsGrant(a) then sources[c.name := Half(a.outcome.channel, c.schema, c.buffer)] else sources,
      calls + [c], answers + [a])
  {
    var cs, xs := calls + [c], answers + [a];
    var later := if c.Source? && IsGrant(a) then sources[c.name := Half(a.outcome.channel, c.schema, c.buffer)] else sources;
    assert forall i, n :: i < |calls| ==> (GotSource(cs, xs, i, n) <==> GotSource(calls, answers, i, n));
    assert forall n :: GotSource(cs, xs, |calls|, n) <==> c.Source? && IsGrant(a) && c.name == n;
    forall n ensures n in later <==> exists i :: GotSource(cs, xs, i, n) {
      assert GotSource(cs, xs, |calls|, n) <==> c.Source? && IsGrant(a) && c.name == n;
      if n in sources {
        var i :| GotSource(calls, answers, i, n);
        assert GotSource(cs, xs, i, n);
      }
    }
  }

  lemma DropsGrow(dropped: set<string>, calls: seq<Call>, answers: seq<Answer>, c: Call, a: Answer)
    requires |answers| == |calls| && RemembersDrops(dropped, calls, answers)
    ensures RemembersDrops(if c.DropSink? && a == Done then dropped + {c.name} else dropped, calls + [c], answers + [a])
  {
    var cs, xs := calls + [c], answers + [a];
    var later := if c.DropSink? && a == Done then dropped + {c.name} else dropped;
    assert forall i, n :: i < |calls| ==> (Dropped(cs, xs, i, n) <==> Dropped(calls, answers, i, n));
    assert forall n :: Dropped(cs, xs, |calls|, n) <==> c == DropSink(n) && a == Done;
    forall n ensures n in later <==> exists i :: Dropped(cs, xs, i, n) {
      assert Dropped(cs, xs, |calls|, n) <==> c == DropSink(n) && a == Done;
      if n in dropped {
        var i :| Dropped(calls, answers, i, n);
        assert Dropped(cs, xs, i, n);
      }
    }
  }

  /** What one call does to the halves handed out. */
  ghost predicate HandsOut(w: World, c: Call, v: World, a: Answer) {
    && v.sinks == (if c.Sink? && IsGrant(a) then w.sinks[c.name := Half(a.outcome.channel, c.schema, c.buffer)] else w.sinks)
    && v.sources == (if c.Source? && IsGrant(a) then w.sources[c.name := Half(a.outcome.channel, c.schema, c.buffer)] else w.sources)
    && v.dropped == (if c.DropSink? && a == Done then w.dropped + {c.name} else w.dropped)
    && |w.pipes| <= |v.pipes| && (IsGrant(a) ==> a.outcome.channel < |v.pipes|)
    && (c.Sink? && IsGrant(a) ==> c.name !in w.sinks) && (c.Source? && IsGrant(a) ==> c.name !in w.sources)
  }

  lemma SinkHandsOut(w: World, c: Call)
    requires Inv(w) && Callable(c) && c.Sink?
    ensures HandsOut(w, c, Step(w, c).0, Step(w, c).1)
  {
    RegistryOutcome(w, c);
    if Step(w, c).1.outcome.Granted? {
      SinkEntryHolds(w, c);
    }
  }

  lemma SourceHandsOut(w: World, c: Call)
    requires Inv(w) && Callable(c) && c.Source?
    ensures HandsOut(w, c, Step(w, c).0, Step(w, c).1)
  {
    RegistryOutcome(w, c);
    if Step(w, c).1.outcome.Granted? {
      SourceEntryHolds(w, c);
    }
  }

  lemma UseHandsOut(w: World, c: Call)
    requires Inv(w) && (c.Write? || c.Next?)
    ensures HandsOut(w, c, Step(w, c).0, Step(w, c).1)
  {
    PipeTakesStep(w, c);
  }

  lemma StepHandsOut(w: World, c: Call)
    requires Inv(w) && Callable(c)
    ensures HandsOut(w, c, Step(w, c).0, Step(w, c).1)
  {
    if c.Sink? {
      SinkHandsOut(w, c);
    } else if c.Source? {
      SourceHandsOut(w, c);
    } else if c.Write? || c.Next? {
      UseHandsOut(w, c);
    }
  }

  lemma RememberStep(w: World, v: World, calls: seq<Call>, answers: seq<Answer>, c: Call, a: Answer)
    requires Remembers(w, calls, answers) && HandsOut(w, c, v, a)
    ensures Remembers(v, calls + [c], answers + [a])
  {
    SinksGrow(w.sinks, calls, answers, c, a);
    SourcesGrow(w.sources, calls, answers, c, a);
    DropsGrow(w.dropped, calls, answers, c, a);
  }

  lemma NothingYet()
    ensures Inv(NEW_WORLD) && Remembers(NEW_WORLD, [], [])
  {
  }

  lemma {:induction false} RunRemembers(calls: seq<Call>)
    requires AllCallable(calls)
    ensures Inv(NEW_WORLD) && Inv(Run(NEW_WORLD, calls).0)
    ensures Remembers(Run(NEW_WORLD, calls).0, calls, Run(NEW_WORLD, calls).1)
    decreases |calls|
  {
    NothingYet();
    if calls != [] {
      var init, c := calls[..|calls| - 1], calls[|calls| - 1];
      SplitLast(calls);
      InitCallable(init, c);
      RunRemembers(init);
      OneMoreRemembered(init, c);
    }
  }

  lemma InitCallable(init: seq<Call>, c: Call)
    requires AllCallable(init + [c])
    ensures AllCallable(init) && Callable(c)
  {
    assert (init + [c])[|init|] == c;
    assert forall d :: d in init ==> d in init + [c];
  }

  lemma OneMoreRemembered(init: seq<Call>, c: Call)
    requires Inv(NEW_WORLD) && AllCallable(init) && Callable(c) && Inv(Run(NEW_WORLD, init).0)
    requires Remembers(Run(NEW_WORLD, init).0, init, Run(NEW_WORLD, init).1)
    ensures AllCallable(init + [c]) && Inv(Run(NEW_WORLD, init + [c]).0)
    ensures Remembers(Run(NEW_WORLD, init + [c]).0, init + [c], Run(NEW_WORLD, init + [c]).1)
  {
    var (w, answers) := Run(NEW_WORLD, init);
    RunSnoc(NEW_WORLD, init, c);
    StepKeepsInv(w, c);
    StepHandsOut(w, c);
    RememberStep(w, Step(w, c).0, init, answers, c, Step(w, c).1);
  }

  // ---------- the registry's answers ----------

  /** A sink call is granted exactly when the name has no sink yet and its source, if any, agrees. */
  lemma SinkAnswer(w: World, name: string, schema: Schema, buffer: nat)
    requires Inv(w) && buffer >= 1
    ensures Step(w, Sink(name, schema, buffer)).1 == Registry(
      if name in w.sinks then Refused(TwoSinks)
      else if name !in w.sources then Granted(|w.pipes|)
      else if w.sources[name].schema != schema then Refused(SchemaMismatch)
      else if w.sources[name].buffer != buffer then Refused(BufferMismatch(buffer, w.sources[name].buffer))
      else Granted(w.sources[name].channel))
  {
    assert name in w.entries ==> EntryInv(w, name);
  }

  lemma SourceAnswer(w: World, name: string, schema: Schema, buffer: nat)
    requires Inv(w) && buffer >= 1
    ensures Step(w, Source(name, schema, buffer)).1 == Registry(
      if name in w.sources then Refused(TwoSources)
      else if name !in w.sinks then Granted(|w.pipes|)
      else if w.sinks[name].schema != schema then Refused(SchemaMismatch)
      else if w.sinks[name].buffer != buffer then Refused(BufferMismatch(buffer, w.sinks[name].buffer))
      else Granted(w.sinks[name].channel))
  {
    assert name in w.entries ==> EntryInv(w, name);
  }

  /** What a second half is answered, by what the first one asked for and got. */
  ghost predicate Paired(first: Call, got: Answer, schema: Schema, buffer: nat, answer: Answer)
    requires (first.Sink? || first.Source?) && got.Registry? && got.outcome.Granted?
  {
    answer == Registry(
      if first.schema != schema then Refused(SchemaMismatch)
      else if first.buffer != buffer then Refused(BufferMismatch(buffer, first.buffer))
      else Granted(got.outcome.channel))
  }

  ghost predicate Unused(answers: seq<Answer>, channel: nat) {
    forall i :: 0 <= i < |answers| ==> answers[i] != Registry(Granted(channel))
  }

  /**
    After any calls on any names: a sink is refused as a second one exactly when
    the name's sink was handed out before; otherwise the first half of a name gets
    a channel nobody has, and the second one the first one's channel exactly when
    it asks for the same schema and the same buffer.
  */
  lemma SinkAnsweredExactly(calls: seq<Call>, name: string, schema: Schema, buffer: nat)
    requires AllCallable(calls) && buffer >= 1
    ensures Inv(NEW_WORLD) && Inv(Run(NEW_WORLD, calls).0)
    ensures var (w, answers) := Run(NEW_WORLD, calls);
      var answer := Step(w, Sink(name, schema, buffer)).1;
      && (answer == Registry(Refused(TwoSinks)) <==> exists i :: GotSink(calls, answers, i, name))
      && ((forall i :: !GotSink(calls, answers, i, name)) ==>
        && (forall i :: GotSource(calls, answers, i, name) ==> Paired(calls[i], answers[i], schema, buffer, answer))
        && ((forall i :: !GotSource(calls, answers, i, name)) ==>
          answer.Registry? && answer.outcome.Granted? && Unused(answers, answer.outcome.channel)))
  {
    RunRemembers(calls);
    SinkAnswer(Run(NEW_WORLD, calls).0, name, schema, buffer);
  }

  /** Likewise for a source. */
  lemma SourceAnsweredExactly(calls: seq<Call>, name: string, schema: Schema, buffer: nat)
    requires AllCallable(calls) && buffer >= 1
    ensures Inv(NEW_WORLD) && Inv(Run(NEW_WORLD, calls).0)
    ensures var (w, answers) := Run(NEW_WORLD, calls);
      var answer := Step(w, Source(name, schema, buffer)).1;
      && (answer == Registry(Refused(TwoSources)) <==> exists i :: GotSource(calls, answers, i, name))
      && ((forall i :: !GotSource(calls, answers, i, name)) ==>
        && (forall i :: GotSink(calls, answers, i, name) ==> Paired(calls[i], answers[i], schema, buffer, answer))
        && ((forall i :: !GotSink(calls, answers, i, name)) ==>
          answer.Registry? && answer.outcome.Granted? && Unused(answers, answer.outcome.channel)))
  {
    RunRemembers(calls);
    SourceAnswer(Run(NEW_WORLD, calls).0, name, schema, buffer);
  }

  // ---------- using a channel ----------

  /** A write by the sink's holder is appended unless the channel is full, and then waits. */
  lemma WriteAppends(w: World, name: string, batch: Batch)
    requires Inv(w)
    ensures name !in w.sinks || name in w.dropped ==> Step(w, Write(name, batch)) == (w, NoHandle)
    ensures name in w.sinks && name !in w.dropped ==>
      var channel := w.sinks[name].channel;
      && channel < |w.pipes|
      && var p := w.pipes[channel];
      Step(w, Write(name, batch)) ==
        if |p.queue| < w.sinks[name].buffer
        then (w.(pipes := w.pipes[channel := p.(queue := p.queue + [batch], sent := p.sent + [batch])]), Done)
        else (w, Waits)
  {
    assert name in w.sinks ==> EntryInv(w, name);
  }

  lemma ReadAnswer(w: World, name: string)
    requires Inv(w) && name in w.sources
    ensures w.sources[name].channel < |w.pipes|
    ensures var p := w.pipes[w.sources[name].channel];
      && (p.queue != [] ==> Step(w, Next(name)).1 in {Got(p.queue[0]), WrongSchema(p.queue[0])})
      && (p.queue == [] ==> Step(w, Next(name)) == (w, if name in w.dropped then EndOfStream else Waits))
  {
    assert EntryInv(w, name);
    EndOfStreamExactly(w, name);
  }

  /**
    Dropping a sink ends its channel: what is queued can still be read, oldest
    first, then the source sees the end, and nothing more can be written.
  */
  lemma DropEndsChannel(w: World, name: string, batch: Batch)
    requires Inv(w) && name in w.sinks
    ensures var (v, answer) := Step(w, DropSink(name));
      && answer == Done && v.pipes == w.pipes && Inv(v)
      && Step(v, Write(name, batch)) == (v, NoHandle)
      && (name in w.sources ==>
        && w.sources[name].channel < |w.pipes|
        && var queue := w.pipes[w.sources[name].channel].queue;
        && (queue == [] ==> Step(v, Next(name)) == (v, EndOfStream))
        && (queue != [] ==> Step(v, Next(name)).1 in {Got(queue[0]), WrongSchema(queue[0])}))
  {
    DropKeepsInv(w, name);
    var v := w.(dropped := w.dropped + {name});
    assert Step(w, DropSink(name)) == (v, Done);
    WriteAppends(v, name, batch);
    if name in v.sources {
      ReadAnswer(v, name);
    }
  }

  /**
    After any calls: a source sees the end exactly when its sink was handed out
    and dropped and every batch sent has been taken; with nothing queued it waits otherwise.
  */
  lemma EndSeenExactly(calls: seq<Call>, name: string)
    requires AllCallable(calls)
    ensures Inv(NEW_WORLD) && Inv(Run(NEW_WORLD, calls).0)
    ensures var (w, answers) := Run(NEW_WORLD, calls);
      (exists i :: GotSource(calls, answers, i, name)) ==>
        && name in w.sources && w.sources[name].channel < |w.pipes|
        && var p := w.pipes[w.sources[name].channel];
        var answer := Step(w, Next(name)).1;
        && (answer == EndOfStream <==> p.sent == p.taken && exists i :: Dropped(calls, answers, i, name))
        && (answer == Waits <==> p.sent == p.taken && forall i :: !Dropped(calls, answers, i, name))
  {
    RunRemembers(calls);
    var w := Run(NEW_WORLD, calls).0;
    if name in w.sources {
      ReadAnswer(w, name);
      QueueEmptyExactly(w.pipes[w.sources[name].channel]);
    }
  }

  lemma QueueEmptyExactly(p: Pipe)
    requires PipeInv(p)
    ensures p.queue == [] <==> p.sent == p.taken
  {
    if p.sent == p.taken {
      assert |p.sent| == |p.taken| + |p.queue|;
    } else {
      assert p.queue == [] ==> p.taken + p.queue == p.taken;
    }
  }
}
