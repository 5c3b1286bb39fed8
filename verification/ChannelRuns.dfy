/**
  Channels in use: the registry's calls on any names, interleaved with the atomic
  steps of every sink it has handed out and of every source.
*/
module ChannelRuns {
  import opened Wrappers
  import opened Records
  import Bridge = ChannelBridge
  import Backlog = ChannelBacklog

  /** The registry's world, and for each sink handed out the state of its bookkeeping. */
  datatype Joined = Joined(world: Bridge.World, sinks: map<string, Backlog.State>)

  /** A call on the registry or a drop, or one step of the sink or the source of a name. */
  datatype Op = Call(call: Bridge.Call) | Act(name: string, action: Backlog.Action)

  const START := Joined(Bridge.NEW_WORLD, map[])

  predicate Valid(op: Op) {
    op.Call? ==> Bridge.Callable(op.call) && !op.call.Write? && !op.call.Next?
  }

  /** The holder of a half can take the step: a sink not dropped, or a source with something to receive. */
  predicate Possible(j: Joined, op: Op) {
    match op
    case Call(_) => Valid(op)
    case Act(name, a) =>
      && name in j.sinks && Backlog.Enabled(j.sinks[name], a)
      && if a.Receive? then name in j.world.sources else name in j.world.sinks && name !in j.world.dropped
  }

  /** What an operation is in the registry's world, if anything. */
  function CallOf(op: Op): Option<Bridge.Call> {
    match op
    case Call(c) => Some(c)
    case Act(name, Send(b)) => Some(Bridge.Write(name, b))
    case Act(name, Receive) => Some(Bridge.Next(name))
    case Act(_, _) => None
  }

  function NameOf(op: Op): string {
    if op.Call? then op.call.name else op.name
  }

  function WorldAfter(w: Bridge.World, op: Op): Bridge.World
    requires Bridge.Inv(w) && Valid(op)
  {
    if CallOf(op).None? then w else Bridge.Step(w, CallOf(op).value).0
  }

  predicate Granted(w: Bridge.World, op: Op)
    requires Bridge.Inv(w) && Valid(op)
  {
    op.Call? && op.call.Sink? && Bridge.Step(w, op.call).1.outcome.Granted?
  }

  /** A sink starts its bookkeeping when it is handed out. */
  function Step(j: Joined, op: Op): Joined
    requires Bridge.Inv(j.world) && Possible(j, op)
  {
    Joined(WorldAfter(j.world, op),
           match op
           case Call(c) => if Granted(j.world, op) then j.sinks[c.name := Backlog.Init(c.buffer)] else j.sinks
           case Act(name, a) => j.sinks[name := Backlog.Step(j.sinks[name], a)])
  }

  // ---------- the two models agree ----------

  /** The bookkeeping is of the channel the sink was given. */
  ghost predicate Matches(s: Backlog.State, p: Bridge.Pipe) {
    s.capacity == p.capacity && s.queue == p.queue && s.sent == p.sent && s.received == p.taken
  }

  /** A name's sink keeps the backlog of its channel; a channel whose sink is still to come has carried nothing. */
  ghost predicate Agrees(w: Bridge.World, sinks: map<string, Backlog.State>, name: string) {
    && (name in sinks <==> name in w.sinks)
    && (name in w.entries ==>
      && Bridge.ChannelOf(w, name).Some? && Bridge.ChannelOf(w, name).value < |w.pipes|
      && var p := w.pipes[Bridge.ChannelOf(w, name).value];
         if name in sinks then Matches(sinks[name], p) && Backlog.Inv(sinks[name]) else p.sent == p.taken == p.queue == [])
  }

  ghost predicate Inv(j: Joined) {
    Bridge.Inv(j.world) && forall n :: Agrees(j.world, j.sinks, n)
  }

  /** The channel of a sink handed out. */
  function ChannelFor(w: Bridge.World, name: string): Bridge.Pipe
    requires Bridge.Inv(w) && name in w.sinks
  {
    assert Bridge.EntryInv(w, name);
    w.pipes[w.sinks[name].channel]
  }

  lemma OthersAgree(j: Joined, op: Op, name: string)
    requires Inv(j) && Possible(j, op) && name != NameOf(op)
    ensures Agrees(Step(j, op).world, Step(j, op).sinks, name)
  {
    assert Agrees(j.world, j.sinks, name);
    if CallOf(op).Some? {
      Bridge.OtherNamesUntouched(j.world, CallOf(op).value, name);
    }
  }

  /** A sink is always handed out over a channel that has carried nothing, of the capacity it is told. */
  lemma SinkStartsEmpty(j: Joined, c: Bridge.Call)
    requires Inv(j) && Bridge.Callable(c) && c.Sink? && Bridge.Step(j.world, c).1.outcome.Granted?
    ensures c.name !in j.world.sinks && c.name in Bridge.Step(j.world, c).0.sinks
    ensures Bridge.Inv(Bridge.Step(j.world, c).0)
    ensures Matches(Backlog.Init(c.buffer), ChannelFor(Bridge.Step(j.world, c).0, c.name))
  {
    Bridge.RegistryOutcome(j.world, c);
    Bridge.StepKeepsInv(j.world, c);
    Bridge.SinkAdds(j.world, c);
    assert Agrees(j.world, j.sinks, c.name);
    assert c.name in j.world.entries ==> Bridge.EntryInv(j.world, c.name);
    assert Bridge.EntryInv(Bridge.Step(j.world, c).0, c.name);
  }

  lemma SinkAgrees(j: Joined, op: Op)
    requires Inv(j) && Possible(j, op) && op.Call? && op.call.Sink?
    ensures Agrees(Step(j, op).world, Step(j, op).sinks, op.call.name)
  {
    var c := op.call;
    assert Agrees(j.world, j.sinks, c.name);
    Bridge.RegistryOutcome(j.world, c);
    if Granted(j.world, op) {
      SinkStartsEmpty(j, c);
      assert Bridge.EntryInv(Step(j, op).world, c.name);
    }
  }

  lemma SourceAgrees(j: Joined, op: Op)
    requires Inv(j) && Possible(j, op) && op.Call? && op.call.Source?
    ensures Agrees(Step(j, op).world, Step(j, op).sinks, op.call.name)
  {
    var c := op.call;
    assert Agrees(j.world, j.sinks, c.name);
    Bridge.RegistryOutcome(j.world, c);
    if Bridge.Step(j.world, c).1.outcome.Granted? {
      SourceKeepsChannel(j.world, c);
    }
  }

  /** A source handed out leaves the channel of its name as it was, or is the first on a new one. */
  lemma SourceKeepsChannel(w: Bridge.World, c: Bridge.Call)
    requires Bridge.Inv(w) && Bridge.Callable(c) && c.Source? && Bridge.Step(w, c).1.outcome.Granted?
    ensures var v := Bridge.Step(w, c).0;
      && v.sinks == w.sinks && c.name in v.entries && Bridge.ChannelOf(v, c.name).Some?
      && var channel := Bridge.ChannelOf(v, c.name).value;
      && channel < |v.pipes|
      && (c.name in w.entries ==>
        Bridge.ChannelOf(w, c.name) == Some(channel) && channel < |w.pipes| && v.pipes[channel] == w.pipes[channel])
      && (c.name !in w.entries ==> v.pipes[channel] == Bridge.Pipe(c.name, c.buffer, [], [], []))
  {
    if c.name in w.entries {
      assert Bridge.EntryInv(w, c.name);
    }
  }

  /** What a send and a receive do to the channel. */
  lemma SendMoves(w: Bridge.World, name: string, b: Batch)
    requires Bridge.Inv(w) && name in w.sinks && name !in w.dropped
    requires |ChannelFor(w, name).queue| < ChannelFor(w, name).capacity
    ensures var p := ChannelFor(w, name);
      Bridge.Step(w, Bridge.Write(name, b)).0
        == w.(pipes := w.pipes[w.sinks[name].channel := p.(queue := p.queue + [b], sent := p.sent + [b])])
  {
  }

  lemma ReceiveMoves(w: Bridge.World, name: string)
    requires Bridge.Inv(w) && name in w.sinks && name in w.sources && ChannelFor(w, name).queue != []
    ensures var p := ChannelFor(w, name);
      Bridge.Step(w, Bridge.Next(name)).0
        == w.(pipes := w.pipes[w.sinks[name].channel := p.(queue := p.queue[1..], taken := p.taken + [p.queue[0]])])
  {
    assert Bridge.EntryInv(w, name);
  }

  lemma MovedAgrees(w: Bridge.World, sinks: map<string, Backlog.State>, name: string, s: Backlog.State, p: Bridge.Pipe)
    requires Bridge.Inv(w) && Agrees(w, sinks, name) && name in w.sinks && Matches(s, p) && Backlog.Inv(s)
    ensures w.sinks[name].channel < |w.pipes|
    ensures Agrees(w.(pipes := w.pipes[w.sinks[name].channel := p]), sinks[name := s], name)
  {
    assert Bridge.EntryInv(w, name);
  }

  /** A step of a sink or a source moves the channel and the bookkeeping together. */
  lemma SendAgrees(j: Joined, op: Op)
    requires Inv(j) && Possible(j, op) && op.Act? && op.action.Send?
    ensures Agrees(Step(j, op).world, Step(j, op).sinks, op.name)
  {
    var s, p := j.sinks[op.name], ChannelFor(j.world, op.name);
    SinkMatches(j, op.name);
    Backlog.StepKeepsInv(s, op.action);
    SendMoves(j.world, op.name, op.action.batch);
    MovedAgrees(j.world, j.sinks, op.name, Backlog.Step(s, op.action),
                p.(queue := p.queue + [op.action.batch], sent := p.sent + [op.action.batch]));
  }

  lemma ReceiveAgrees(j: Joined, op: Op)
    requires Inv(j) && Possible(j, op) && op.Act? && op.action.Receive?
    ensures Agrees(Step(j, op).world, Step(j, op).sinks, op.name)
  {
    var s := j.sinks[op.name];
    SinkMatches(j, op.name);
    var p := ChannelFor(j.world, op.name);
    Backlog.StepKeepsInv(s, op.action);
    ReceiveMoves(j.world, op.name);
    MovedAgrees(j.world, j.sinks, op.name, Backlog.Step(s, op.action),
                p.(queue := p.queue[1..], taken := p.taken + [p.queue[0]]));
  }

  lemma SinkMatches(j: Joined, name: string)
    requires Inv(j) && name in j.sinks
    ensures name in j.world.sinks && Agrees(j.world, j.sinks, name)
    ensures Matches(j.sinks[name], ChannelFor(j.world, name)) && Backlog.Inv(j.sinks[name])
  {
    assert Agrees(j.world, j.sinks, name) && Bridge.EntryInv(j.world, name);
  }

  /** The other steps touch the bookkeeping alone. */
  lemma BookkeepingAgrees(j: Joined, op: Op)
    requires Inv(j) && Possible(j, op) && op.Act? && CallOf(op).None?
    ensures Agrees(Step(j, op).world, Step(j, op).sinks, op.name)
  {
    assert Agrees(j.world, j.sinks, op.name);
    Backlog.StepKeepsInv(j.sinks[op.name], op.action);
    SameChannelSide(j.sinks[op.name], op.action);
  }

  lemma SameChannelSide(s: Backlog.State, a: Backlog.Action)
    requires Backlog.Enabled(s, a) && !a.Send? && !a.Receive?
    ensures var t := Backlog.Step(s, a);
      t.capacity == s.capacity && t.queue == s.queue && t.sent == s.sent && t.received == s.received
  {
  }

  lemma StepKeepsInv(j: Joined, op: Op)
    requires Inv(j) && Possible(j, op)
    ensures Inv(Step(j, op))
  {
    if CallOf(op).Some? {
      Bridge.StepKeepsInv(j.world, CallOf(op).value);
    }
    forall n ensures Agrees(Step(j, op).world, Step(j, op).sinks, n) {
      if n != NameOf(op) {
        OthersAgree(j, op, n);
      } else if op.Act? {
        if CallOf(op).None? {
          BookkeepingAgrees(j, op);
        } else if op.action.Send? {
          SendAgrees(j, op);
        } else {
          ReceiveAgrees(j, op);
        }
      } else if op.call.Sink? {
        SinkAgrees(j, op);
      } else if op.call.Source? {
        SourceAgrees(j, op);
      } else {
        assert Agrees(j.world, j.sinks, n);
      }
    }
  }

  // ---------- whole runs ----------

  /** `None` when some operation was not possible. */
  function Run(j: Joined, ops: seq<Op>): Option<Joined>
    requires Inv(j)
    decreases |ops|
  {
    if ops == [] then Some(j)
    else if !Possible(j, ops[0]) then None
    else
      StepKeepsInv(j, ops[0]);
      Run(Step(j, ops[0]), ops[1..])
  }

  lemma {:induction false} RunKeepsInv(j: Joined, ops: seq<Op>)
    requires Inv(j)
    ensures Run(j, ops).Some? ==> Inv(Run(j, ops).value)
    decreases |ops|
  {
    if ops != [] && Possible(j, ops[0]) {
      StepKeepsInv(j, ops[0]);
      RunKeepsInv(Step(j, ops[0]), ops[1..]);
    }
  }

  function CallsOf(ops: seq<Op>): seq<Bridge.Call> {
    if ops == [] then []
    else (if CallOf(ops[0]).None? then [] else [CallOf(ops[0]).value]) + CallsOf(ops[1..])
  }

  /** Seen from the registry, a run is the calls in it: what holds of all call lists holds here. */
  lemma {:induction false} RunIsBridgeRun(j: Joined, ops: seq<Op>)
    requires Inv(j) && Run(j, ops).Some?
    ensures forall c :: c in CallsOf(ops) ==> Bridge.Callable(c)
    ensures Bridge.Run(j.world, CallsOf(ops)).0 == Run(j, ops).value.world
    decreases |ops|
  {
    if ops != [] {
      StepKeepsInv(j, ops[0]);
      RunIsBridgeRun(Step(j, ops[0]), ops[1..]);
      if CallOf(ops[0]).Some? {
        assert CallsOf(ops)[1..] == CallsOf(ops[1..]);
      } else {
        assert CallsOf(ops) == CallsOf(ops[1..]);
      }
    }
  }

  lemma StartHolds()
    ensures Inv(START)
  {
  }

  /**
    In every run of the registry, its sinks and its sources: every sink handed out
    keeps the books of the channel it was given, and each of its answers is the
    rows of the batches that were on the channel when it read the capacity.
  */
  lemma EveryBacklogIsExact(ops: seq<Op>)
    ensures Inv(START)
    ensures Run(START, ops).Some? ==>
      var j := Run(START, ops).value;
      Inv(j) && forall n :: n in j.world.sinks ==>
        && n in j.sinks && Matches(j.sinks[n], ChannelFor(j.world, n))
        && Backlog.Truthful(j.sinks[n].answers)
  {
    StartHolds();
    RunKeepsInv(START, ops);
    if Run(START, ops).Some? {
      var j := Run(START, ops).value;
      forall n | n in j.world.sinks
        ensures n in j.sinks && Matches(j.sinks[n], ChannelFor(j.world, n)) && Backlog.Truthful(j.sinks[n].answers)
      {
        assert Agrees(j.world, j.sinks, n);
        SinkMatches(j, n);
      }
    }
  }

  lemma OnlyReplyEndsAnswering(s: Backlog.State, a: Backlog.Action)
    requires Backlog.Enabled(s, a) && s.phase.Answering? && !a.Reply?
    ensures Backlog.Step(s, a).phase == s.phase
  {
  }

  lemma StepStillAnswers(j: Joined, op: Op, name: string)
    requires Inv(j) && Possible(j, op) && name in j.sinks
    requires j.sinks[name].phase.Answering? && op != Act(name, Backlog.Reply)
    ensures name in Step(j, op).sinks && Step(j, op).sinks[name].phase == j.sinks[name].phase
  {
    if op.Act? && op.name == name {
      OnlyReplyEndsAnswering(j.sinks[name], op.action);
    } else if op.Call? && op.call.Sink? {
      SinkMatches(j, name);
      Bridge.RegistryOutcome(j.world, op.call);
    }
  }

  /** While a sink has read the capacity and not answered, nothing anyone does changes what it read. */
  lemma {:induction false} StillAnswering(j: Joined, ops: seq<Op>, name: string)
    requires Inv(j) && name in j.sinks && j.sinks[name].phase.Answering? && Act(name, Backlog.Reply) !in ops
    ensures Run(j, ops).Some? ==>
      name in Run(j, ops).value.sinks && Run(j, ops).value.sinks[name].phase == j.sinks[name].phase
    decreases |ops|
  {
    if ops != [] && Possible(j, ops[0]) {
      StepKeepsInv(j, ops[0]);
      StepStillAnswers(j, ops[0], name);
      StillAnswering(Step(j, ops[0]), ops[1..], name);
    }
  }

  lemma AskReads(j: Joined, name: string)
    requires Inv(j) && Possible(j, Act(name, Backlog.Ask))
    ensures name in j.world.sinks
    ensures var s := Step(j, Act(name, Backlog.Ask)).sinks;
      name in s && s[name].phase.Answering? && s[name].phase.backlog == ChannelFor(j.world, name).queue
  {
    SinkMatches(j, name);
  }

  lemma ReplyTells(j: Joined, name: string)
    requires Inv(j) && Possible(j, Act(name, Backlog.Reply))
    ensures var answers := Step(j, Act(name, Backlog.Reply)).sinks[name].answers;
      answers != [] && answers[|answers| - 1].rows == Rows(j.sinks[name].phase.backlog)
  {
    SinkMatches(j, name);
    var answers := Backlog.Step(j.sinks[name], Backlog.Reply).answers;
    Backlog.StepKeepsInv(j.sinks[name], Backlog.Reply);
    assert answers[|answers| - 1].backlog == j.sinks[name].phase.backlog;
  }

  /**
    A backlog query asked after any run: whatever the source, the registry and the
    other names do before the answer, it is the rows that were on the channel when
    it was asked.
  */
  lemma AnswerIsBacklogThen(before: seq<Op>, name: string, between: seq<Op>)
    requires Inv(START) && Run(START, before).Some?
    requires Possible(Run(START, before).value, Act(name, Backlog.Ask)) && Act(name, Backlog.Reply) !in between
    ensures var asked := Run(START, before).value;
      Inv(asked) && name in asked.world.sinks && Inv(Step(asked, Act(name, Backlog.Ask))) &&
      var reading := Run(Step(asked, Act(name, Backlog.Ask)), between);
      reading.Some? && Possible(reading.value, Act(name, Backlog.Reply)) ==>
        && Inv(reading.value)
        && var answers := Step(reading.value, Act(name, Backlog.Reply)).sinks[name].answers;
           answers != [] && answers[|answers| - 1].rows == Rows(ChannelFor(asked.world, name).queue)
  {
    RunKeepsInv(START, before);
    var asked, ask := Run(START, before).value, Act(name, Backlog.Ask);
    AskReads(asked, name);
    StepKeepsInv(asked, ask);
    RunKeepsInv(Step(asked, ask), between);
    StillAnswering(Step(asked, ask), between, name);
    var reading := Run(Step(asked, ask), between);
    if reading.Some? && Possible(reading.value, Act(name, Backlog.Reply)) {
      ReplyTells(reading.value, name);
    }
  }
}
