/**
  The sink end of a bounded channel, and the row backlog it reports.

  A write is several steps and the receiver may take a batch between any two of
  them. `Step` is that machine; `Inv` is what every step keeps. The class below
  it is the sink itself, proved to keep the same invariant.
*/
module ChannelBacklog {
  import opened Wrappers
  import opened Records
  import opened Sequences

  // ---------- the machine ----------

  datatype Phase =
    | Idle
    | Sent(rows: nat)                                     // on the channel, not yet recorded
    | Recorded                                            // capacity not yet read
    | Trimming(inFlight: nat)
    | Answering(inFlight: nat, backlog: seq<Batch>)       // `backlog`: the channel when capacity was read

  /** One `pending_rows` answer, with the channel's content at the instant it read the capacity. */
  datatype Answer = Answer(rows: int, backlog: seq<Batch>)

  datatype State = State(
    capacity: nat,
    queue: seq<Batch>,
    sent: seq<Batch>,
    received: seq<Batch>,
    queued: seq<nat>,
    sentRows: nat,
    phase: Phase,
    answers: seq<Answer>)

  datatype Action = Send(batch: Batch) | Record | ReadCapacity | Trim | Receive | Ask | Reply

  function Init(capacity: nat): State {
    State(capacity, [], [], [], [], 0, Idle, [])
  }

  /** A permit is held by every batch on the channel. */
  function FreeSlots(capacity: nat, queue: seq<Batch>): nat {
    if |queue| <= capacity then capacity - |queue| else 0
  }

  function QueuedMessages(capacity: nat, queue: seq<Batch>): nat {
    var free := FreeSlots(capacity, queue);
    if free <= capacity then capacity - free else 0
  }

  /** The constant-time lookup: the entry `inFlight` from the back, or nothing left. */
  function PendingRows(queued: seq<nat>, sentRows: nat, inFlight: nat): int {
    var oldest := if inFlight <= |queued| then |queued| - inFlight else 0;
    sentRows - (if oldest < |queued| then queued[oldest] else sentRows)
  }

  predicate Enabled(s: State, a: Action) {
    match a
    case Send(_) => s.phase.Idle? && |s.queue| < s.capacity
    case Record => s.phase.Sent?
    case ReadCapacity => s.phase.Recorded?
    case Trim => s.phase.Trimming?
    case Receive => s.queue != []
    case Ask => s.phase.Idle?
    case Reply => s.phase.Answering?
  }

  function Step(s: State, a: Action): State
    requires Enabled(s, a)
  {
    match a
    case Send(b) => s.(queue := s.queue + [b], sent := s.sent + [b], phase := Sent(b.rows))
    case Record => s.(queued := s.queued + [s.sentRows], sentRows := s.sentRows + s.phase.rows, phase := Recorded)
    case ReadCapacity => s.(phase := Trimming(QueuedMessages(s.capacity, s.queue)))
    case Trim =>
      if |s.queued| > s.phase.inFlight then s.(queued := s.queued[1..]) else s.(phase := Idle)
    case Receive => s.(queue := s.queue[1..], received := s.received + [s.queue[0]])
    case Ask => s.(phase := Answering(QueuedMessages(s.capacity, s.queue), s.queue))
    case Reply =>
      s.(phase := Idle,
         answers := s.answers + [Answer(PendingRows(s.queued, s.sentRows, s.phase.inFlight), s.phase.backlog)])
  }

  /** `None` when some action of the schedule was not enabled. */
  function Run(s: State, schedule: seq<Action>): Option<State>
    decreases |schedule|
  {
    if schedule == [] then Some(s)
    else if Enabled(s, schedule[0]) then Run(Step(s, schedule[0]), schedule[1..])
    else None
  }

  // ---------- the invariant ----------

  /** What the deque and the row total know about: everything sent, less a batch not yet recorded. */
  function Known(s: State): seq<Batch> {
    if s.phase.Sent? && s.sent != [] then s.sent[..|s.sent| - 1] else s.sent
  }

  /** `queued` is the tail of the prefix sums of `known`, cut no deeper than what was received. */
  ghost predicate PrefixSums(queued: seq<nat>, sentRows: nat, known: seq<Batch>, received: nat) {
    && sentRows == Rows(known)
    && |queued| <= |known| <= |queued| + received
    && forall j :: 0 <= j < |queued| ==> queued[j] == Rows(known[..|known| - |queued| + j])
  }

  /** Every answer is the number of rows that were on the channel. */
  ghost predicate Truthful(answers: seq<Answer>) {
    forall i :: 0 <= i < |answers| ==> answers[i].rows == Rows(answers[i].backlog)
  }

  ghost predicate Inv(s: State) {
    && s.sent == s.received + s.queue
    && |s.queue| <= s.capacity
    && PrefixSums(s.queued, s.sentRows, Known(s), |s.received|)
    && (match s.phase
        case Idle => |s.queued| <= s.capacity
        case Sent(rows) => s.sent != [] && rows == s.sent[|s.sent| - 1].rows
        case Recorded => true
        case Trimming(k) => |s.queue| <= k <= s.capacity
        case Answering(k, backlog) =>
          |s.queued| <= s.capacity && k == |backlog| <= |s.queued| && backlog == s.sent[|s.sent| - k..])
    && Truthful(s.answers)
  }

  lemma PendingIsBacklog(queued: seq<nat>, sentRows: nat, known: seq<Batch>, received: nat, k: nat)
    requires PrefixSums(queued, sentRows, known, received) && k <= |queued|
    ensures PendingRows(queued, sentRows, k) == Rows(known[|known| - k..])
  {
    RowsOfSplit(known, |known| - k);
    if k == 0 {
      assert known[|known|..] == [];
    }
  }

  lemma RecordKeepsSums(queued: seq<nat>, sentRows: nat, known: seq<Batch>, received: nat, b: Batch)
    requires PrefixSums(queued, sentRows, known, received)
    ensures PrefixSums(queued + [sentRows], sentRows + b.rows, known + [b], received)
  {
    RowsOfConcat(known, [b]);
    assert (known + [b])[..|known|] == known;
    forall j | 0 <= j < |queued|
      ensures queued[j] == Rows((known + [b])[..|known| - |queued| + j])
    {
      assert (known + [b])[..|known| - |queued| + j] == known[..|known| - |queued| + j];
    }
  }

  lemma TrimKeepsSums(queued: seq<nat>, sentRows: nat, known: seq<Batch>, received: nat)
    requires PrefixSums(queued, sentRows, known, received)
    requires queued != [] && |known| < |queued| + received
    ensures PrefixSums(queued[1..], sentRows, known, received)
  {
    forall j | 0 <= j < |queued[1..]|
      ensures queued[1..][j] == Rows(known[..|known| - |queued[1..]| + j])
    {
      assert queued[1..][j] == queued[j + 1];
    }
  }

  lemma SendKeepsInv(s: State, b: Batch)
    requires Inv(s) && Enabled(s, Send(b))
    ensures Inv(Step(s, Send(b)))
  {
    assert (s.sent + [b])[..|s.sent|] == s.sent;
    assert s.sent + [b] == s.received + (s.queue + [b]);
  }

  lemma RecordKeepsInv(s: State)
    requires Inv(s) && Enabled(s, Record)
    ensures Inv(Step(s, Record))
  {
    var last := s.sent[|s.sent| - 1];
    RecordKeepsSums(s.queued, s.sentRows, Known(s), |s.received|, last);
    assert Known(s) + [last] == s.sent;
  }

  lemma ReceiveKeepsInv(s: State)
    requires Inv(s) && Enabled(s, Receive)
    ensures Inv(Step(s, Receive))
  {
    var next := Step(s, Receive);
    FirstMoves(s.received, s.queue);
    assert Known(next) == Known(s);
    MoreReceived(s.queued, s.sentRows, Known(s), |s.received|);
  }

  lemma FirstMoves(received: seq<Batch>, queue: seq<Batch>)
    requires queue != []
    ensures received + queue == (received + [queue[0]]) + queue[1..]
  {
  }

  lemma MoreReceived(queued: seq<nat>, sentRows: nat, known: seq<Batch>, received: nat)
    requires PrefixSums(queued, sentRows, known, received)
    ensures PrefixSums(queued, sentRows, known, received + 1)
  {
  }

  lemma SumsOutlast(queued: seq<nat>, sentRows: nat, known: seq<Batch>, received: nat, later: nat)
    requires PrefixSums(queued, sentRows, known, received) && received <= later
    ensures PrefixSums(queued, sentRows, known, later)
  {
  }

  lemma TakeSplits(received: seq<Batch>, queue: seq<Batch>, n: nat)
    requires n <= |queue|
    ensures received + queue == received + queue[..n] + queue[n..]
    ensures forall b: Batch, m: nat :: m <= |queue| - n + 1 ==> (queue[n..] + [b])[m..] == (queue + [b])[n + m..]
  {
    assert queue == queue[..n] + queue[n..];
    forall b: Batch, m: nat | m <= |queue| - n + 1
      ensures (queue[n..] + [b])[m..] == (queue + [b])[n + m..]
    {
      assert queue[n..] + [b] == (queue + [b])[n..];
    }
  }

  lemma SentTakenQueued(received: seq<Batch>, queue: seq<Batch>, b: Batch, before: nat, after: nat)
    requires before + after <= |queue| + 1
    ensures var q := queue + [b];
      && q[before..][after..] == q[before + after..]
      && received + queue + [b] == received + q[..before] + q[before..][..after] + q[before..][after..]
  {
    var q := queue + [b];
    Cut(q, before, after);
    Regroup(received, queue, [b]);
    Regroup4(received, q[..before], q[before..][..after], q[before..][after..]);
  }

  lemma TrimKeepsInv(s: State)
    requires Inv(s) && Enabled(s, Trim)
    ensures Inv(Step(s, Trim))
  {
    if |s.queued| > s.phase.inFlight {
      TrimKeepsSums(s.queued, s.sentRows, s.sent, |s.received|);
    }
  }

  lemma ReplyKeepsInv(s: State)
    requires Inv(s) && Enabled(s, Reply)
    ensures Inv(Step(s, Reply))
  {
    PendingIsBacklog(s.queued, s.sentRows, s.sent, |s.received|, s.phase.inFlight);
    TruthfulGrows(s.answers, Answer(PendingRows(s.queued, s.sentRows, s.phase.inFlight), s.phase.backlog));
  }

  lemma TruthfulGrows(answers: seq<Answer>, a: Answer)
    requires Truthful(answers) && a.rows == Rows(a.backlog)
    ensures Truthful(answers + [a])
  {
  }

  lemma StepKeepsInv(s: State, a: Action)
    requires Inv(s) && Enabled(s, a)
    ensures Inv(Step(s, a))
  {
    match a
    case Send(b) => SendKeepsInv(s, b);
    case Record => RecordKeepsInv(s);
    case ReadCapacity =>
    case Trim => TrimKeepsInv(s);
    case Receive => ReceiveKeepsInv(s);
    case Ask => assert s.sent[|s.sent| - |s.queue|..] == s.queue;
    case Reply => ReplyKeepsInv(s);
  }

  /**
    In every schedule, whatever the receiver does between two steps of a write or
    of a query: each answer is the rows of the batches on the channel when the
    capacity was read, nothing is lost or reordered, and between writes the deque
    holds at most `capacity` entries.
  */
  lemma {:induction false} EveryScheduleKeepsInv(s: State, schedule: seq<Action>)
    requires Inv(s)
    ensures Run(s, schedule).Some? ==> Inv(Run(s, schedule).value)
    decreases |schedule|
  {
    if schedule != [] && Enabled(s, schedule[0]) {
      StepKeepsInv(s, schedule[0]);
      EveryScheduleKeepsInv(Step(s, schedule[0]), schedule[1..]);
    }
  }

  lemma BacklogIsExact(capacity: nat, schedule: seq<Action>)
    ensures Run(Init(capacity), schedule).Some? ==>
      var s := Run(Init(capacity), schedule).value;
      && Truthful(s.answers)
      && s.sent == s.received + s.queue
      && (s.phase.Idle? ==> |s.queued| <= capacity)
  {
    assert Inv(Init(capacity));
    EveryScheduleKeepsInv(Init(capacity), schedule);
    RunKeepsCapacity(Init(capacity), schedule);
  }

  lemma {:induction false} RunKeepsCapacity(s: State, schedule: seq<Action>)
    ensures Run(s, schedule).Some? ==> Run(s, schedule).value.capacity == s.capacity
    decreases |schedule|
  {
    if schedule != [] && Enabled(s, schedule[0]) {
      RunKeepsCapacity(Step(s, schedule[0]), schedule[1..]);
    }
  }

  /** A write always finishes: each trim step shortens the deque or ends the write. */
  lemma {:induction false} TrimEnds(s: State) returns (steps: seq<Action>)
    requires s.phase.Trimming?
    ensures Run(s, steps).Some?
    ensures var t := Run(s, steps).value; t == s.(queued := t.queued, phase := Idle) && |t.queued| <= s.phase.inFlight
    decreases |s.queued|
  {
    if |s.queued| > s.phase.inFlight {
      var rest := TrimEnds(Step(s, Trim));
      steps := [Trim] + rest;
      assert steps[1..] == rest;
    } else {
      steps := [Trim];
      assert Run(Step(s, Trim), steps[1..]).Some?;
    }
  }

  // ---------- the sink ----------

  /** A bounded channel, with the history of what went through it. */
  class Channel {
    const capacity: nat
    var queue: seq<Batch>
    ghost var sent: seq<Batch>
    ghost var received: seq<Batch>

    constructor (capacity: nat)
      ensures this.capacity == capacity && queue == [] && sent == [] && received == []
    {
      this.capacity := capacity;
      queue, sent, received := [], [], [];
    }

    /** A send completes once a slot is free. */
    method Push(batch: Batch)
      requires |queue| < capacity
      modifies this
      ensures queue == old(queue) + [batch] && sent == old(sent) + [batch] && received == old(received)
    {
      queue, sent := queue + [batch], sent + [batch];
    }

    /** The receiver takes the oldest `n` batches. */
    method Take(n: nat)
      requires n <= |queue|
      modifies this
      ensures queue == old(queue)[n..] && received == old(received) + old(queue)[..n] && sent == old(sent)
    {
      queue, received := queue[n..], received + queue[..n];
    }
  }

  class ChannelSink {
    const tx: Channel
    const bufferCapacity: nat
    var queued: seq<nat>
    var sentRows: nat

    /** Built over a channel that has carried nothing, of the capacity it is told. */
    constructor (buffer: nat, tx: Channel)
      requires tx.capacity == buffer && tx.queue == [] && tx.sent == [] && tx.received == []
      ensures this.tx == tx && Valid()
    {
      this.tx := tx;
      bufferCapacity := buffer;
      queued, sentRows := [], 0;
    }

    ghost function Abs(): State
      reads this, tx
    {
      State(bufferCapacity, tx.queue, tx.sent, tx.received, queued, sentRows, Idle, [])
    }

    ghost predicate Valid()
      reads this, tx
    {
      tx.capacity == bufferCapacity && Inv(Abs())
    }

    /** Entries the receiver no longer needs leave the front of the deque. */
    method TrimTo(inFlight: nat)
      requires PrefixSums(queued, sentRows, tx.sent, |tx.received|)
      requires |tx.sent| <= inFlight + |tx.received| && inFlight <= |queued|
      modifies this`queued
      ensures PrefixSums(queued, sentRows, tx.sent, |tx.received|) && |queued| == inFlight
    {
      while |queued| > inFlight
        invariant inFlight <= |queued|
        invariant PrefixSums(queued, sentRows, tx.sent, |tx.received|)
      {
        TrimKeepsSums(queued, sentRows, tx.sent, |tx.received|);
        queued := queued[1..];
      }
    }

    /**
      One write. A full channel is waited on: the receiver takes `waited` batches
      before the send gets its slot, `before` more before the capacity is read,
      and `after` more while the deque is trimmed.
    */
    method WriteBatch(batch: Batch, waited: nat, before: nat, after: nat)
      requires Valid()
      requires waited <= |tx.queue| && |tx.queue| - waited < tx.capacity
      requires before + after <= |tx.queue| - waited + 1
      modifies this, tx
      ensures Valid()
      ensures tx.sent == old(tx.sent) + [batch]
      ensures tx.queue == (old(tx.queue) + [batch])[waited + before + after..]
      ensures sentRows == old(sentRows) + batch.rows
      ensures |queued| == |old(tx.queue)| - waited + 1 - before <= bufferCapacity
    {
      TakeSplits(tx.received, tx.queue, waited);
      tx.Take(waited);
      SumsOutlast(queued, sentRows, tx.sent, |old(tx.received)|, |tx.received|);
      RecordKeepsSums(queued, sentRows, tx.sent, |tx.received|, batch);
      SentTakenQueued(tx.received, tx.queue, batch, before, after);
      tx.Push(batch);
      tx.Take(before);
      queued := queued + [sentRows];
      sentRows := sentRows + batch.rows;
      var inFlight := QueuedMessages(bufferCapacity, tx.queue);
      tx.Take(after);
      SumsOutlast(queued, sentRows, tx.sent, |old(tx.received)| + waited, |tx.received|);
      TrimTo(inFlight);
    }

    method PendingRows() returns (rows: int)
      requires Valid()
      ensures rows == Rows(tx.queue)
    {
      var inFlight := QueuedMessages(bufferCapacity, tx.queue);
      PendingIsBacklog(queued, sentRows, tx.sent, |tx.received|, inFlight);
      assert tx.sent[|tx.sent| - inFlight..] == tx.queue;
      var oldest := if inFlight <= |queued| then |queued| - inFlight else 0;
      var base := if oldest < |queued| then queued[oldest] else sentRows;
      rows := sentRows - base;
    }
  }
}
