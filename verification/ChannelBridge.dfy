/**
  The name-keyed registry that pairs a channel sink with a channel source, and
  the channels the two halves then share.

  `Step` runs one call against the whole world: the registry's entries, every
  channel ever created, and the halves handed out. `Inv` is what every call keeps.
*/
module ChannelBridge {
  import opened Wrappers
  import opened Records

  // ---------- the registry ----------

  /** Channels are numbered in creation order; an entry stores the ends nobody has taken yet. */
  datatype Entry = Entry(
    sender: Option<nat>,
    receiver: Option<nat>,
    schema: Option<Schema>,
    buffer: nat,
    sinkBuilt: bool,
    sourceBuilt: bool)

  type Entries = map<string, Entry>

  datatype Refusal =
    | TwoSinks
    | TwoSources
    | SchemaMismatch
    | BufferMismatch(asked: nat, paired: nat)

  /** `Panicked`: an end that had to be there was not. */
  datatype Outcome = Granted(channel: nat) | Refused(why: Refusal) | Panicked

  const EMPTY_ENTRY := Entry(None, None, None, 0, false, false)

  function Lookup(entries: Entries, name: string): Entry {
    if name in entries then entries[name] else EMPTY_ENTRY
  }

  predicate Unclaimed(e: Entry) {
    e.sender.None? && e.receiver.None?
  }

  /** Whichever half comes first creates the pair; the second has to agree with it. */
  function Claim(e: Entry, unused: nat, schema: Schema, buffer: nat): Result<Entry, Refusal> {
    if Unclaimed(e) then
      Success(e.(sender := Some(unused), receiver := Some(unused), schema := Some(schema), buffer := buffer))
    else if e.schema != Some(schema) then Failure(SchemaMismatch)
    else if e.buffer != buffer then Failure(BufferMismatch(buffer, e.buffer))
    else Success(e)
  }

  function SinkHalf(entries: Entries, name: string, schema: Schema, buffer: nat, unused: nat): (Entries, Outcome) {
    var e := Lookup(entries, name);
    if e.sinkBuilt then (entries[name := e], Refused(TwoSinks))
    else
      match Claim(e, unused, schema, buffer)
      case Failure(why) => (entries[name := e], Refused(why))
      case Success(p) =>
        if p.sender.None? then (entries[name := p], Panicked)
        else (entries[name := p.(sender := None, sinkBuilt := true)], Granted(p.sender.value))
  }

  function SourceHalf(entries: Entries, name: string, schema: Schema, buffer: nat, unused: nat): (Entries, Outcome) {
    var e := Lookup(entries, name);
    if e.sourceBuilt then (entries[name := e], Refused(TwoSources))
    else
      match Claim(e, unused, schema, buffer)
      case Failure(why) => (entries[name := e], Refused(why))
      case Success(p) =>
        if p.receiver.None? then (entries[name := p], Panicked)
        else (entries[name := p.(receiver := None, sourceBuilt := true)], Granted(p.receiver.value))
  }

  // ---------- the world ----------

  datatype Half = Half(channel: nat, schema: Schema, buffer: nat)

  datatype Pipe = Pipe(name: string, capacity: nat, queue: seq<Batch>, sent: seq<Batch>, taken: seq<Batch>)

  datatype World = World(
    entries: Entries,
    pipes: seq<Pipe>,
    sinks: map<string, Half>,
    sources: map<string, Half>,
    dropped: set<string>,
    grants: seq<(bool, string)>)      // every half ever handed out: is it a sink, and for which name

  datatype Call =
    | Sink(name: string, schema: Schema, buffer: nat)
    | Source(name: string, schema: Schema, buffer: nat)
    | Write(name: string, batch: Batch)
    | DropSink(name: string)
    | Next(name: string)

  datatype Answer =
    | Registry(outcome: Outcome)
    | Done
    | NoHandle                 // the caller holds no such half
    | Waits                    // the call is still pending
    | Got(batch: Batch)
    | WrongSchema(batch: Batch)
    | EndOfStream

  const NEW_WORLD := World(map[], [], map[], map[], {}, [])

  /** A channel of capacity zero cannot be created. */
  predicate Callable(c: Call) {
    (c.Sink? || c.Source?) ==> c.buffer >= 1
  }

  /** Somebody still holds the channel's sender: the registry, or a sink that was not dropped. */
  predicate SenderAlive(w: World, channel: nat) {
    || (exists n :: n in w.entries && w.entries[n].sender == Some(channel))
    || (exists n :: n in w.sinks && w.sinks[n].channel == channel && n !in w.dropped)
  }

  function NewPipes(w: World, name: string, buffer: nat): seq<Pipe> {
    if Unclaimed(Lookup(w.entries, name)) then w.pipes + [Pipe(name, buffer, [], [], [])] else w.pipes
  }

  function Step(w: World, c: Call): (World, Answer)
    requires Inv(w) && Callable(c)
  {
    match c
    case Sink(name, schema, buffer) =>
      var (entries, outcome) := SinkHalf(w.entries, name, schema, buffer, |w.pipes|);
      if outcome.Granted? then
        (w.(entries := entries, pipes := NewPipes(w, name, buffer),
            sinks := w.sinks[name := Half(outcome.channel, schema, buffer)],
            grants := w.grants + [(true, name)]),
         Registry(outcome))
      else (w.(entries := entries), Registry(outcome))
    case Source(name, schema, buffer) =>
      var (entries, outcome) := SourceHalf(w.entries, name, schema, buffer, |w.pipes|);
      if outcome.Granted? then
        (w.(entries := entries, pipes := NewPipes(w, name, buffer),
            sources := w.sources[name := Half(outcome.channel, schema, buffer)],
            grants := w.grants + [(false, name)]),
         Registry(outcome))
      else (w.(entries := entries), Registry(outcome))
    case Write(name, batch) =>
      if name !in w.sinks || name in w.dropped then (w, NoHandle)
      else
        var channel := w.sinks[name].channel;
        var p := w.pipes[channel];
        if |p.queue| >= p.capacity then (w, Waits)
        else (w.(pipes := w.pipes[channel := p.(queue := p.queue + [batch], sent := p.sent + [batch])]), Done)
    case DropSink(name) =>
      if name !in w.sinks then (w, NoHandle) else (w.(dropped := w.dropped + {name}), Done)
    case Next(name) =>
      if name !in w.sources then (w, NoHandle)
      else
        var half := w.sources[name];
        var p := w.pipes[half.channel];
        if p.queue != [] then
          var b := p.queue[0];
          (w.(pipes := w.pipes[half.channel := p.(queue := p.queue[1..], taken := p.taken + [b])]),
           if b.schema.fields == half.schema.fields then Got(b) else WrongSchema(b))
        else (w, if SenderAlive(w, half.channel) then Waits else EndOfStream)
  }

  // ---------- the invariant ----------

  /** The channel a claimed name is about, wherever its sender is. */
  function ChannelOf(w: World, name: string): Option<nat> {
    if name !in w.entries then None
    else if w.entries[name].sender.Some? then w.entries[name].sender
    else if name in w.sinks then Some(w.sinks[name].channel)
    else None
  }

  ghost predicate HalfFits(h: Half, e: Entry, channel: nat) {
    h.channel == channel && Some(h.schema) == e.schema && h.buffer == e.buffer
  }

  /** One name: each end is either stored here or with the half that was built, and all agree. */
  ghost predicate EntryInv(w: World, name: string)
    requires name in w.entries
  {
    var e := w.entries[name];
    && (e.sinkBuilt || e.sourceBuilt)
    && (e.sinkBuilt <==> name in w.sinks) && (e.sourceBuilt <==> name in w.sources)
    && (e.sender.None? <==> e.sinkBuilt) && (e.receiver.None? <==> e.sourceBuilt)
    && ChannelOf(w, name).Some?
    && var channel := ChannelOf(w, name).value;
    && channel < |w.pipes| && w.pipes[channel].name == name && w.pipes[channel].capacity == e.buffer
    && (e.receiver.Some? ==> e.receiver.value == channel)
    && (name in w.sinks ==> HalfFits(w.sinks[name], e, channel))
    && (name in w.sources ==> HalfFits(w.sources[name], e, channel))
  }

  /** First in, first out, and never over capacity. */
  ghost predicate PipeInv(p: Pipe) {
    p.sent == p.taken + p.queue && |p.queue| <= p.capacity
  }

  ghost predicate EntriesInv(w: World) {
    && w.sinks.Keys <= w.entries.Keys && w.sources.Keys <= w.entries.Keys
    && forall n :: n in w.entries ==> EntryInv(w, n)
  }

  ghost predicate PipesInv(pipes: seq<Pipe>) {
    forall c :: 0 <= c < |pipes| ==> PipeInv(pipes[c])
  }

  /** The halves handed out, each one once. */
  ghost predicate GrantsInv(w: World) {
    && (forall n :: (true, n) in w.grants <==> n in w.sinks)
    && (forall n :: (false, n) in w.grants <==> n in w.sources)
    && (forall i, j :: 0 <= i < j < |w.grants| ==> w.grants[i] != w.grants[j])
  }

  ghost predicate Inv(w: World) {
    EntriesInv(w) && PipesInv(w.pipes) && GrantsInv(w) && w.dropped <= w.sinks.Keys
  }

  /** Channels keep their name and capacity; new ones may appear at the end. */
  ghost predicate SameShape(pipes: seq<Pipe>, later: seq<Pipe>) {
    && |pipes| <= |later|
    && forall c :: 0 <= c < |pipes| ==> later[c].name == pipes[c].name && later[c].capacity == pipes[c].capacity
  }

  ghost predicate SameHalves(w: World, v: World, n: string) {
    && (n in w.entries <==> n in v.entries) && (n in w.entries ==> w.entries[n] == v.entries[n])
    && (n in w.sinks <==> n in v.sinks) && (n in w.sinks ==> w.sinks[n] == v.sinks[n])
    && (n in w.sources <==> n in v.sources) && (n in w.sources ==> w.sources[n] == v.sources[n])
  }

  lemma EntryFrame(w: World, v: World, n: string)
    requires n in w.entries && EntryInv(w, n) && SameHalves(w, v, n) && SameShape(w.pipes, v.pipes)
    ensures EntryInv(v, n)
  {
  }

  lemma RegistryOutcome(w: World, c: Call)
    requires Inv(w) && Callable(c) && (c.Sink? || c.Source?)
    ensures Step(w, c).1.outcome != Panicked
    ensures Step(w, c).1.outcome.Refused? ==> Step(w, c).0 == w
    ensures Step(w, c).1.outcome.Granted? ==> c.name !in (if c.Sink? then w.sinks else w.sources)
  {
    if c.name in w.entries {
      assert EntryInv(w, c.name);
      assert w.entries[c.name := w.entries[c.name]] == w.entries;
    }
  }

  lemma NewPipesFit(w: World, name: string, buffer: nat)
    requires PipesInv(w.pipes)
    ensures PipesInv(NewPipes(w, name, buffer)) && SameShape(w.pipes, NewPipes(w, name, buffer))
  {
  }

  lemma GrantsGrow(w: World, v: World, isSink: bool, name: string)
    requires GrantsInv(w) && (isSink, name) !in w.grants && v.grants == w.grants + [(isSink, name)]
    requires v.sinks.Keys == w.sinks.Keys + if isSink then {name} else {}
    requires v.sources.Keys == w.sources.Keys + if isSink then {} else {name}
    ensures GrantsInv(v)
  {
    forall i, j | 0 <= i < j < |v.grants| ensures v.grants[i] != v.grants[j] {
      assert v.grants[i] in w.grants;
    }
    assert v.grants[|w.grants|] == (isSink, name);
  }

  lemma EntriesAfter(w: World, v: World, name: string)
    requires EntriesInv(w) && SameShape(w.pipes, v.pipes)
    requires name in v.entries && EntryInv(v, name)
    requires v.sinks.Keys <= v.entries.Keys && v.sources.Keys <= v.entries.Keys
    requires forall n :: n != name ==> SameHalves(w, v, n)
    ensures EntriesInv(v)
  {
    forall n | n in v.entries && n != name ensures EntryInv(v, n) {
      assert SameHalves(w, v, n) && EntryInv(w, n);
      EntryFrame(w, v, n);
    }
  }

  /** The new world has one half more and is otherwise as before. */
  ghost predicate Adds(w: World, v: World, isSink: bool, name: string, buffer: nat) {
    && v.pipes == NewPipes(w, name, buffer) && v.dropped == w.dropped
    && v.grants == w.grants + [(isSink, name)]
    && v.entries.Keys == w.entries.Keys + {name}
    && v.sinks.Keys == w.sinks.Keys + (if isSink then {name} else {})
    && v.sources.Keys == w.sources.Keys + (if isSink then {} else {name})
    && forall n :: n != name ==> SameHalves(w, v, n)
  }

  lemma OneMore(w: World, v: World, isSink: bool, name: string, buffer: nat, e: Entry, h: Half)
    requires v.pipes == NewPipes(w, name, buffer) && v.dropped == w.dropped
    requires v.grants == w.grants + [(isSink, name)] && v.entries == w.entries[name := e]
    requires v.sinks == if isSink then w.sinks[name := h] else w.sinks
    requires v.sources == if isSink then w.sources else w.sources[name := h]
    ensures Adds(w, v, isSink, name, buffer)
  {
  }

  lemma SinkHalfOneKey(entries: Entries, name: string, schema: Schema, buffer: nat, unused: nat)
    ensures var later := SinkHalf(entries, name, schema, buffer, unused).0;
      name in later && later == entries[name := later[name]]
  {
  }

  lemma SourceHalfOneKey(entries: Entries, name: string, schema: Schema, buffer: nat, unused: nat)
    ensures var later := SourceHalf(entries, name, schema, buffer, unused).0;
      name in later && later == entries[name := later[name]]
  {
  }

  lemma GrantKeepsInv(w: World, v: World, isSink: bool, name: string, buffer: nat)
    requires Inv(w) && Adds(w, v, isSink, name, buffer)
    requires name !in (if isSink then w.sinks else w.sources)
    requires name in v.entries && EntryInv(v, name)
    ensures Inv(v)
  {
    NewPipesFit(w, name, buffer);
    GrantsGrow(w, v, isSink, name);
    EntriesAfter(w, v, name);
  }

  lemma SinkEntryHolds(w: World, c: Call)
    requires Inv(w) && Callable(c) && c.Sink? && Step(w, c).1.outcome.Granted?
    ensures c.name in Step(w, c).0.entries && EntryInv(Step(w, c).0, c.name)
  {
    assert c.name in w.entries ==> EntryInv(w, c.name);
  }

  lemma SinkAdds(w: World, c: Call)
    requires Inv(w) && Callable(c) && c.Sink? && Step(w, c).1.outcome.Granted?
    ensures Adds(w, Step(w, c).0, true, c.name, c.buffer)
  {
    var v := Step(w, c).0;
    SinkHalfOneKey(w.entries, c.name, c.schema, c.buffer, |w.pipes|);
    OneMore(w, v, true, c.name, c.buffer, v.entries[c.name], v.sinks[c.name]);
  }

  lemma SinkKeepsInv(w: World, c: Call)
    requires Inv(w) && Callable(c) && c.Sink? && Step(w, c).1.outcome.Granted?
    ensures Inv(Step(w, c).0)
  {
    SinkAdds(w, c);
    RegistryOutcome(w, c);
    SinkEntryHolds(w, c);
    GrantKeepsInv(w, Step(w, c).0, true, c.name, c.buffer);
  }

  lemma SourceEntryHolds(w: World, c: Call)
    requires Inv(w) && Callable(c) && c.Source? && Step(w, c).1.outcome.Granted?
    ensures c.name in Step(w, c).0.entries && EntryInv(Step(w, c).0, c.name)
  {
    assert c.name in w.entries ==> EntryInv(w, c.name);
  }

  lemma SourceAdds(w: World, c: Call)
    requires Inv(w) && Callable(c) && c.Source? && Step(w, c).1.outcome.Granted?
    ensures Adds(w, Step(w, c).0, false, c.name, c.buffer)
  {
    var v := Step(w, c).0;
    SourceHalfOneKey(w.entries, c.name, c.schema, c.buffer, |w.pipes|);
    OneMore(w, v, false, c.name, c.buffer, v.entries[c.name], v.sources[c.name]);
  }

  lemma SourceKeepsInv(w: World, c: Call)
    requires Inv(w) && Callable(c) && c.Source? && Step(w, c).1.outcome.Granted?
    ensures Inv(Step(w, c).0)
  {
    SourceAdds(w, c);
    RegistryOutcome(w, c);
    SourceEntryHolds(w, c);
    GrantKeepsInv(w, Step(w, c).0, false, c.name, c.buffer);
  }

  lemma PipeUpdated(pipes: seq<Pipe>, channel: nat, p: Pipe)
    requires PipesInv(pipes) && channel < |pipes| && PipeInv(p)
    requires p.name == pipes[channel].name && p.capacity == pipes[channel].capacity
    ensures PipesInv(pipes[channel := p]) && SameShape(pipes, pipes[channel := p])
  {
  }

  lemma NextTakesStep(w: World, name: string)
    requires Inv(w)
    ensures var v := Step(w, Next(name)).0;
      PipesInv(v.pipes) && SameShape(w.pipes, v.pipes) && v == w.(pipes := v.pipes)
  {
    if name in w.sources {
      assert EntryInv(w, name);
      var channel := w.sources[name].channel;
      var p := w.pipes[channel];
      assert PipeInv(p);
      if p.queue != [] {
        assert p.taken + p.queue == p.taken + [p.queue[0]] + p.queue[1..];
        PipeUpdated(w.pipes, channel, p.(queue := p.queue[1..], taken := p.taken + [p.queue[0]]));
      }
    }
  }

  lemma WriteTakesStep(w: World, name: string, batch: Batch)
    requires Inv(w)
    ensures var v := Step(w, Write(name, batch)).0;
      PipesInv(v.pipes) && SameShape(w.pipes, v.pipes) && v == w.(pipes := v.pipes)
  {
    if name in w.sinks {
      assert EntryInv(w, name);
      var channel := w.sinks[name].channel;
      var p := w.pipes[channel];
      assert PipeInv(p);
      if |p.queue| < p.capacity {
        assert p.taken + p.queue + [batch] == p.taken + (p.queue + [batch]);
        PipeUpdated(w.pipes, channel, p.(queue := p.queue + [batch], sent := p.sent + [batch]));
      }
    }
  }

  lemma PipeTakesStep(w: World, c: Call)
    requires Inv(w) && (c.Write? || c.Next?)
    ensures PipesInv(Step(w, c).0.pipes) && SameShape(w.pipes, Step(w, c).0.pipes)
    ensures Step(w, c).0 == w.(pipes := Step(w, c).0.pipes)
  {
    if c.Next? {
      NextTakesStep(w, c.name);
    } else {
      WriteTakesStep(w, c.name, c.batch);
    }
  }

  lemma PipeStepKeepsInv(w: World, c: Call)
    requires Inv(w) && (c.Write? || c.Next?)
    ensures Inv(Step(w, c).0)
  {
    PipeTakesStep(w, c);
    PipesReplaced(w, Step(w, c).0.pipes);
  }

  lemma PipesReplaced(w: World, pipes: seq<Pipe>)
    requires Inv(w) && PipesInv(pipes) && SameShape(w.pipes, pipes)
    ensures Inv(w.(pipes := pipes))
  {
    var next := w.(pipes := pipes);
    forall n | n in next.entries ensures EntryInv(next, n) {
      EntryFrame(w, next, n);
    }
  }

  lemma DropKeepsInv(w: World, name: string)
    requires Inv(w)
    ensures Inv(Step(w, DropSink(name)).0)
  {
    var next := Step(w, DropSink(name)).0;
    forall n | n in next.entries ensures EntryInv(next, n) {
      EntryFrame(w, next, n);
    }
  }

  lemma StepKeepsInv(w: World, c: Call)
    requires Inv(w) && Callable(c)
    ensures Inv(Step(w, c).0)
  {
    match c
    case Sink(_, _, _) =>
      RegistryOutcome(w, c);
      if Step(w, c).1.outcome.Granted? { SinkKeepsInv(w, c); }
    case Source(_, _, _) =>
      RegistryOutcome(w, c);
      if Step(w, c).1.outcome.Granted? { SourceKeepsInv(w, c); }
    case Write(name, batch) => PipeStepKeepsInv(w, c);
    case DropSink(name) => DropKeepsInv(w, name);
    case Next(name) => PipeStepKeepsInv(w, c);
  }

  // ---------- whole runs ----------

  /** The world after a list of calls, and every answer in order. */
  function Run(w: World, calls: seq<Call>): (World, seq<Answer>)
    requires Inv(w) && forall c :: c in calls ==> Callable(c)
    decreases |calls|
  {
    if calls == [] then (w, [])
    else
      var (next, answer) := Step(w, calls[0]);
      StepKeepsInv(w, calls[0]);
      var (last, answers) := Run(next, calls[1..]);
      (last, [answer] + answers)
  }

  /** The end a half needs is always still there. */
  lemma NeverPanics(w: World, c: Call)
    requires Inv(w) && Callable(c)
    ensures Step(w, c).1 != Registry(Panicked)
  {
    if c.Sink? || c.Source? {
      RegistryOutcome(w, c);
    }
  }

  lemma {:induction false} RunKeepsInv(w: World, calls: seq<Call>)
    requires Inv(w) && forall c :: c in calls ==> Callable(c)
    ensures Inv(Run(w, calls).0)
    ensures |Run(w, calls).1| == |calls|
    ensures Registry(Panicked) !in Run(w, calls).1
    decreases |calls|
  {
    if calls != [] {
      StepKeepsInv(w, calls[0]);
      NeverPanics(w, calls[0]);
      RunKeepsInv(Step(w, calls[0]).0, calls[1..]);
    }
  }

  /**
    After any calls on any names: no half is handed out twice for one name, and
    once a name has both, they are the two ends of one channel with one schema
    and one buffer, of which the registry keeps neither end.
  */
  lemma HalvesPairUp(calls: seq<Call>)
    requires forall c :: c in calls ==> Callable(c)
    ensures Inv(NEW_WORLD)
    ensures var w := Run(NEW_WORLD, calls).0;
      && (forall i, j :: 0 <= i < j < |w.grants| ==> w.grants[i] != w.grants[j])
      && (forall n :: n in w.sinks && n in w.sources ==>
        && w.sinks[n] == w.sources[n]
        && n in w.entries && w.entries[n].sender.None? && w.entries[n].receiver.None?)
      && (forall n, m :: n in w.sinks && m in w.sources && w.sinks[n].channel == w.sources[m].channel ==> n == m)
  {
    RunKeepsInv(NEW_WORLD, calls);
    var w := Run(NEW_WORLD, calls).0;
    forall n, m | n in w.sinks && m in w.sources
      ensures w.sinks[n].channel == w.sources[m].channel ==> n == m
      ensures n == m ==> w.sinks[n] == w.sources[n] && w.entries[n].sender.None? && w.entries[n].receiver.None?
    {
      assert EntryInv(w, n) && EntryInv(w, m);
    }
  }

  /** What belongs to one name. */
  ghost predicate SameFor(w: World, v: World, name: string) {
    && SameHalves(w, v, name)
    && (name in w.dropped <==> name in v.dropped)
    && ChannelOf(w, name) == ChannelOf(v, name)
    && (ChannelOf(w, name).Some? ==>
      var channel := ChannelOf(w, name).value;
      channel < |w.pipes| && channel < |v.pipes| && w.pipes[channel] == v.pipes[channel])
  }

  /** A call changes nothing that belongs to another name. */
  lemma OtherNamesUntouched(w: World, c: Call, name: string)
    requires Inv(w) && Callable(c) && name != c.name
    ensures SameFor(w, Step(w, c).0, name)
  {
    OtherHalvesUntouched(w, c, name);
    if name in w.entries {
      assert EntryInv(w, name);
      OtherPipesUntouched(w, c, ChannelOf(w, name).value);
    }
  }

  lemma OtherHalvesUntouched(w: World, c: Call, name: string)
    requires Inv(w) && Callable(c) && name != c.name
    ensures SameHalves(w, Step(w, c).0, name)
    ensures name in w.dropped <==> name in Step(w, c).0.dropped
  {
    match c
    case Sink(n, schema, buffer) => ClaimTouchesOneName(w, c, name);
    case Source(n, schema, buffer) => ClaimTouchesOneName(w, c, name);
    case Write(n, batch) => PipeTakesStep(w, c);
    case DropSink(n) =>
    case Next(n) => PipeTakesStep(w, c);
  }

  lemma ClaimTouchesOneName(w: World, c: Call, name: string)
    requires Inv(w) && Callable(c) && (c.Sink? || c.Source?) && name != c.name
    ensures SameHalves(w, Step(w, c).0, name) && Step(w, c).0.dropped == w.dropped
  {
    RegistryTouchesOneName(w.entries, c, |w.pipes|, name);
  }

  lemma RegistryTouchesOneName(entries: Entries, c: Call, unused: nat, name: string)
    requires (c.Sink? || c.Source?) && name != c.name
    ensures var after := (if c.Sink? then SinkHalf(entries, c.name, c.schema, c.buffer, unused)
                          else SourceHalf(entries, c.name, c.schema, c.buffer, unused)).0;
      (name in after <==> name in entries) && (name in entries ==> after[name] == entries[name])
  {
  }

  lemma OtherPipesUntouched(w: World, c: Call, channel: nat)
    requires Inv(w) && Callable(c)
    requires channel < |w.pipes| && w.pipes[channel].name != c.name
    ensures channel < |Step(w, c).0.pipes| && Step(w, c).0.pipes[channel] == w.pipes[channel]
  {
    assert c.name in w.entries ==> EntryInv(w, c.name);
  }

  // ---------- end of stream ----------

  lemma SenderAliveForPair(w: World, name: string)
    requires Inv(w) && name in w.sources
    ensures SenderAlive(w, w.sources[name].channel) <==> !(name in w.sinks && name in w.dropped)
  {
    assert EntryInv(w, name);
    var channel := w.sources[name].channel;
    forall n | n in w.entries && ChannelOf(w, n) == Some(channel) ensures n == name {
      assert EntryInv(w, n);
    }
    forall n | n in w.sinks ensures ChannelOf(w, n) == Some(w.sinks[n].channel) {
      assert EntryInv(w, n);
    }
    if name !in w.sinks {
      assert w.entries[name].sender == Some(channel);
    }
  }

  /** A source sees the end exactly when its sink existed, was dropped, and everything was received. */
  lemma EndOfStreamExactly(w: World, name: string)
    requires Inv(w) && name in w.sources
    ensures w.sources[name].channel < |w.pipes|
    ensures Step(w, Next(name)).1 == EndOfStream <==>
      name in w.dropped && w.pipes[w.sources[name].channel].queue == []
  {
    assert EntryInv(w, name);
    SenderAliveForPair(w, name);
  }

  /** Sent batches are exactly the received ones followed by the queued ones, in order. */
  lemma ReceivedThenQueued(w: World, name: string)
    requires Inv(w) && name in w.sinks && name in w.sources
    ensures w.sinks[name].channel == w.sources[name].channel < |w.pipes|
    ensures var p := w.pipes[w.sources[name].channel]; p.sent == p.taken + p.queue
  {
    assert EntryInv(w, name);
  }

  /** The source's answer is the oldest batch sent and not yet taken, or an error carrying that batch. */
  lemma NextIsOldest(w: World, name: string)
    requires Inv(w) && name in w.sources
    ensures w.sources[name].channel < |w.pipes|
    ensures var p := w.pipes[w.sources[name].channel];
      var (v, answer) := Step(w, Next(name));
      |p.taken| < |p.sent| ==>
        && answer == (if p.sent[|p.taken|].schema.fields == w.sources[name].schema.fields
                      then Got(p.sent[|p.taken|]) else WrongSchema(p.sent[|p.taken|]))
        && v.pipes[w.sources[name].channel].taken == p.sent[..|p.taken| + 1]
        && v.pipes[w.sources[name].channel].sent == p.sent
  {
    assert EntryInv(w, name);
    var p := w.pipes[w.sources[name].channel];
    assert PipeInv(p);
    if p.queue != [] {
      assert p.sent[..|p.taken| + 1] == p.taken + [p.queue[0]];
    }
  }

  ghost predicate Drained(w: World, name: string)
    requires Inv(w)
  {
    && name in w.sources && name in w.dropped
    && w.sources[name].channel < |w.pipes| && w.pipes[w.sources[name].channel].queue == []
  }

  lemma StepKeepsDrained(w: World, c: Call, name: string)
    requires Inv(w) && Callable(c) && Drained(w, name)
    ensures Inv(Step(w, c).0) && Drained(Step(w, c).0, name)
  {
    StepKeepsInv(w, c);
    assert EntryInv(w, name);
    if c.name != name {
      OtherNamesUntouched(w, c, name);
    }
  }

  /** The end is final: whatever is called afterwards, every further read of that name answers the same. */
  lemma {:induction false} EndIsFinal(w: World, name: string, calls: seq<Call>)
    requires Inv(w) && Drained(w, name) && forall c :: c in calls ==> Callable(c)
    ensures Inv(Run(w, calls).0) && Drained(Run(w, calls).0, name)
    ensures Step(Run(w, calls).0, Next(name)) == (Run(w, calls).0, EndOfStream)
    decreases |calls|
  {
    if calls == [] {
      EndOfStreamExactly(w, name);
    } else {
      StepKeepsDrained(w, calls[0], name);
      EndIsFinal(Step(w, calls[0]).0, name, calls[1..]);
    }
  }

  // ---------- the registry object ----------

  class ChannelRegistry {
    var entries: Entries
    var created: nat

    constructor ()
      ensures entries == map[] && created == 0
    {
      entries, created := map[], 0;
    }

    method ClaimSink(name: string, schema: Schema, buffer: nat) returns (outcome: Outcome)
      requires buffer >= 1
      modifies this
      ensures (entries, outcome) == SinkHalf(old(entries), name, schema, buffer, old(created))
      ensures created == old(created) + if outcome.Granted? && Unclaimed(Lookup(old(entries), name)) then 1 else 0
      ensures outcome.Granted? ==> entries[name].sinkBuilt && entries[name].sender.None?
    {
      var entry := Lookup(entries, name);
      entries := entries[name := entry];
      if entry.sinkBuilt {
        return Refused(TwoSinks);
      }
      if entry.sender.None? && entry.receiver.None? {
        entry := entry.(sender := Some(created), receiver := Some(created), schema := Some(schema), buffer := buffer);
        entries, created := entries[name := entry], created + 1;
      } else if entry.schema != Some(schema) {
        return Refused(SchemaMismatch);
      } else if entry.buffer != buffer {
        return Refused(BufferMismatch(buffer, entry.buffer));
      }
      if entry.sender.None? {
        return Panicked;
      }
      entries := entries[name := entry.(sender := None, sinkBuilt := true)];
      assert entries == old(entries)[name := entries[name]];
      outcome := Granted(entry.sender.value);
    }

    method ClaimSource(name: string, schema: Schema, buffer: nat) returns (outcome: Outcome)
      requires buffer >= 1
      modifies this
      ensures (entries, outcome) == SourceHalf(old(entries), name, schema, buffer, old(created))
      ensures created == old(created) + if outcome.Granted? && Unclaimed(Lookup(old(entries), name)) then 1 else 0
      ensures outcome.Granted? ==> entries[name].sourceBuilt && entries[name].receiver.None?
    {
      var entry := Lookup(entries, name);
      entries := entries[name := entry];
      if entry.sourceBuilt {
        return Refused(TwoSources);
      }
      if entry.sender.None? && entry.receiver.None? {
        entry := entry.(sender := Some(created), receiver := Some(created), schema := Some(schema), buffer := buffer);
        entries, created := entries[name := entry], created + 1;
      } else if entry.schema != Some(schema) {
        return Refused(SchemaMismatch);
      } else if entry.buffer != buffer {
        return Refused(BufferMismatch(buffer, entry.buffer));
      }
      if entry.receiver.None? {
        return Panicked;
      }
      entries := entries[name := entry.(receiver := None, sourceBuilt := true)];
      assert entries == old(entries)[name := entries[name]];
      outcome := Granted(entry.receiver.value);
    }
  }
}
