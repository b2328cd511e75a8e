/** The receiver (hydra/in_forward.go): connection handlers and the feeder share the bounded queue and send
    their counts, each through its own goroutine, to the statistics. */
module Receiver {
  import opened Prelude
  import opened PackedForward
  import opened Buffer
  import opened Monitor

  /** A handler: waiting for the next message, or past the enqueue with its counts, then also with the
      queue as it was when it asked for its length. */
  datatype Handler =
    | Waiting
    | Counted(messages: int, disposed: int)
    | Measured(messages: int, disposed: int, at: Queue)
    | Gone

  /** The feeder: at the queue, pausing after it found the queue empty, or about to report a length. */
  datatype Feeder = Feeding | Pausing | Reporting(at: Queue)

  /** `applied` are the events that `Stats.Run` has taken off the channel, in order; `asked` is, for each
      event sent, the queue as it was when its length was read, or EMPTY where it was not. */
  datatype State = State(maxMessages: int, queue: Queue, handlers: seq<Handler>, feeder: Feeder,
                         channel: seq<ReceiverEvent>, applied: seq<ReceiverEvent>, asked: seq<Queue>)

  datatype Step =
    | Accept
    | Decode(i: nat, rs: RecordSet)
    | Measure(i: nat)
    | Report(i: nat)
    | Leave(i: nat)
    | Feed
    | FindEmpty
    | MeasureBacklog
    | ReportBacklog
    | ApplyEvent

  function Connection(change: int): ReceiverEvent {
    ReceiverEvent([], change, 0, 0, 0, 0)
  }

  /** `Run` sends its address before it starts the feeder and accepts anyone. */
  predicate Init(s: State) {
    && s.queue == EMPTY && s.handlers == [] && s.feeder == Feeding && s.applied == [] && s.asked == [EMPTY]
    && |s.channel| == 1 && s.channel[0] == ReceiverEvent(s.channel[0].address, 0, 0, 0, 0, s.maxMessages)
  }

  predicate Enabled(s: State, step: Step) {
    match step
    case Accept => true
    case Decode(i, _) => i < |s.handlers| && s.handlers[i] == Waiting
    case Measure(i) => i < |s.handlers| && s.handlers[i].Counted?
    case Report(i) => i < |s.handlers| && s.handlers[i].Measured?
    case Leave(i) => i < |s.handlers| && s.handlers[i] == Waiting
    case Feed => s.feeder == Feeding && s.queue.list != []
    case FindEmpty => s.feeder == Feeding && s.queue.list == []
    case MeasureBacklog => s.feeder == Pausing
    case ReportBacklog => s.feeder.Reporting?
    case ApplyEvent => s.channel != []
  }

  function Apply(s: State, step: Step): State
    requires Enabled(s, step)
  {
    match step
    case Accept => Send(s, Connection(1), EMPTY).(handlers := s.handlers + [Waiting])
    case Decode(i, rs) =>
      var q := Buffer.Step(s.queue, Enqueue(rs), s.maxMessages);
      var d := Total(q.disposed) - Total(s.queue.disposed);
      s.(queue := q, handlers := s.handlers[i := Counted(Size(rs), d)])
    case Measure(i) =>
      var h := s.handlers[i];
      s.(handlers := s.handlers[i := Measured(h.messages, h.disposed, s.queue)])
    case Report(i) =>
      var h := s.handlers[i];
      Send(s, ReceiverEvent([], 0, h.messages, h.disposed, h.at.messages, 0), h.at)
        .(handlers := s.handlers[i := Waiting])
    case Leave(i) => Send(s, Connection(-1), EMPTY).(handlers := s.handlers[i := Gone])
    case Feed => s.(queue := Buffer.Step(s.queue, Dequeue, s.maxMessages))
    case FindEmpty => s.(queue := Buffer.Step(s.queue, Dequeue, s.maxMessages), feeder := Pausing)
    case MeasureBacklog => s.(feeder := Reporting(s.queue))
    case ReportBacklog =>
      Send(s, ReceiverEvent([], 0, 0, 0, s.feeder.at.messages, 0), s.feeder.at).(feeder := Feeding)
    case ApplyEvent => s.(channel := s.channel[1..], applied := s.applied + [s.channel[0]])
  }

  function Send(s: State, e: ReceiverEvent, at: Queue): State {
    s.(channel := s.channel + [e], asked := s.asked + [at])
  }

  predicate Takes(s: State, step: Step, s': State) {
    Enabled(s, step) && s' == Apply(s, step)
  }

  ghost predicate Reaches(steps: seq<Step>, s: State) {
    if steps == [] then Init(s)
    else exists before :: Reaches(Front(steps), before) && Takes(before, Last(steps), s)
  }

  /** `handleConn` on one decoded message: every record set is enqueued, `m` and `d` count its records and
      those disposed for it. */
  method HandleMessage(queue: MessageQueue, recordSets: seq<RecordSet>) returns (m: int, d: int)
    requires queue.Valid()
    modifies queue
    ensures queue.Valid() && queue.history == EnqueueAll(old(queue.history), recordSets, queue.maxMessages)
    ensures queue.history.enqueued == old(queue.history.enqueued) + recordSets
    ensures m == Total(recordSets) && d == Total(queue.history.disposed) - Total(old(queue.history.disposed))
  {
    m, d := 0, 0;
    for i := 0 to |recordSets|
      invariant queue.Valid() && queue.history == EnqueueAll(old(queue.history), recordSets[..i], queue.maxMessages)
      invariant queue.history.enqueued == old(queue.history.enqueued) + recordSets[..i]
      invariant m == Total(recordSets[..i])
      invariant d == Total(queue.history.disposed) - Total(old(queue.history.disposed))
    {
      assert Front(recordSets[..i + 1]) == recordSets[..i];
      assert recordSets[..i + 1] == recordSets[..i] + [recordSets[i]];
      TotalConcat(recordSets[..i], [recordSets[i]]);
      TotalOne(recordSets[i]);
      EnqueueTakesIn(queue.history, recordSets[i], queue.maxMessages);
      var disposed := queue.Enqueue(recordSets[i]);
      d := d + disposed;
      m := m + |recordSets[i].records|;
    }
    assert recordSets[..|recordSets|] == recordSets;
  }

  function EnqueueAll(q: Queue, recordSets: seq<RecordSet>, maxMessages: int): Queue {
    if recordSets == [] then q
    else Buffer.Step(EnqueueAll(q, Front(recordSets), maxMessages), Enqueue(Last(recordSets)), maxMessages)
  }

  // ---- accounts -----------------------------------------------------------------------

  /** Counts that handlers hold and have not reported, and the connections still open. */
  function Held(handlers: seq<Handler>): Counts {
    if handlers == [] then Counts(0, 0, 0)
    else
      var c := Held(Front(handlers));
      match Last(handlers)
      case Waiting => c.(connections := c.connections + 1)
      case Counted(m, d) => Counts(c.connections + 1, c.messages + m, c.disposed + d)
      case Measured(m, d, _) => Counts(c.connections + 1, c.messages + m, c.disposed + d)
      case Gone => c
  }

  function One(h: Handler): Counts {
    Held([h])
  }

  lemma {:induction false} HeldChanged(handlers: seq<Handler>, i: nat, h: Handler)
    requires i < |handlers|
    ensures var before, after, old', new' := Held(handlers), Held(handlers[i := h]), One(handlers[i]), One(h);
            && after.connections == before.connections - old'.connections + new'.connections
            && after.messages == before.messages - old'.messages + new'.messages
            && after.disposed == before.disposed - old'.disposed + new'.disposed
  {
    assert Front([handlers[i]]) == [] && Front([h]) == [];
    if i == |handlers| - 1 {
      assert Front(handlers[i := h]) == Front(handlers);
    } else {
      assert Front(handlers[i := h]) == Front(handlers)[i := h];
      HeldChanged(Front(handlers), i, h);
    }
  }

  function Sent(s: State): seq<ReceiverEvent> {
    s.applied + s.channel
  }

  /** The events of every prefix open at least as many connections as they close. */
  predicate NeverNegative(events: seq<ReceiverEvent>) {
    forall k :: 0 <= k <= |events| ==> CountsOf(events[..k]).connections >= 0
  }

  /** What was enqueued and disposed is either in an event or still held by a handler. */
  predicate Accounted(s: State) {
    var c, h := CountsOf(Sent(s)), Held(s.handlers);
    && c.connections == h.connections >= 0
    && c.messages + h.messages == Total(s.queue.enqueued)
    && c.disposed + h.disposed == Total(s.queue.disposed)
  }

  predicate Inv(s: State) {
    && Conserved(s.queue) && Bounded(s.queue, s.maxMessages)
    && Sent(s) != [] && Sent(s)[0].connections == 0
    && NeverNegative(Sent(s)) && Accounted(s)
  }

  lemma CountsSnoc(events: seq<ReceiverEvent>, e: ReceiverEvent)
    ensures CountsOf(events + [e]) == Counts(CountsOf(events).connections + e.connections,
                                             CountsOf(events).messages + e.messages,
                                             CountsOf(events).disposed + e.disposed)
  {
    assert Front(events + [e]) == events;
  }

  lemma SendKeeps(events: seq<ReceiverEvent>, e: ReceiverEvent)
    requires NeverNegative(events) && CountsOf(events).connections + e.connections >= 0
    ensures NeverNegative(events + [e])
  {
    hide CountsOf;
    CountsSnoc(events, e);
    assert events[..|events|] == events;
    forall k | 0 <= k <= |events + [e]|
      ensures CountsOf((events + [e])[..k]).connections >= 0
    {
      if k <= |events| {
        assert (events + [e])[..k] == events[..k];
      } else {
        assert (events + [e])[..k] == events + [e];
      }
    }
  }

  lemma {:induction false} HeldIsCount(handlers: seq<Handler>)
    ensures Held(handlers).connections >= 0
    ensures (exists i :: 0 <= i < |handlers| && handlers[i] != Gone) ==> Held(handlers).connections >= 1
    ensures (forall i :: 0 <= i < |handlers| ==> handlers[i].Waiting? || handlers[i].Gone?)
            ==> Held(handlers).messages == 0 == Held(handlers).disposed
  {
    if handlers != [] {
      HeldIsCount(Front(handlers));
    }
  }

  lemma DisposedGrows(q: Queue, op: Op, maxMessages: int)
    requires Conserved(q)
    ensures var q' := Buffer.Step(q, op, maxMessages);
            && Conserved(q') && (Bounded(q, maxMessages) ==> Bounded(q', maxMessages))
            && Total(q'.disposed) >= Total(q.disposed)
            && (op.Enqueue? ==> Total(q'.enqueued) == Total(q.enqueued) + Size(op.rs))
            && (op.Dequeue? ==> q'.disposed == q.disposed && q'.enqueued == q.enqueued)
  {
    match op
    case Enqueue(rs) =>
      var k := EnqueueMinimal(q, rs, maxMessages);
      TotalConcat(q.disposed, q.list[..k]);
      var l := MakeRoomLeast(q, Size(rs), maxMessages);
      TotalConcat(q.enqueued, [rs]);
      TotalOne(rs);
    case Dequeue =>
      if q.list != [] {
        LeaveKeeps(q, Buffer.Step(q, op, maxMessages));
      }
  }

  lemma StepKeeps(s: State, step: Step)
    requires Inv(s) && Enabled(s, step)
    ensures Inv(Apply(s, step))
  {
    hide Total, Conserved, Bounded, NeverNegative, CountsOf, Held;
    var s' := Apply(s, step);
    HeldIsCount(s.handlers);
    match step
    case Accept =>
      SendOne(s, s', Connection(1));
      assert Held(s'.handlers) == Held(s.handlers).(connections := Held(s.handlers).connections + 1) by {
        NewHandler(s.handlers);
      }
    case Decode(i, rs) =>
      DisposedGrows(s.queue, Enqueue(rs), s.maxMessages);
      HeldChanged(s.handlers, i, s'.handlers[i]);
      OneHandler(s.handlers[i]);
      OneHandler(s'.handlers[i]);
      assert Sent(s') == Sent(s);
    case Measure(i) =>
      HeldChanged(s.handlers, i, s'.handlers[i]);
      OneHandler(s.handlers[i]);
      OneHandler(s'.handlers[i]);
      assert Sent(s') == Sent(s);
    case Report(i) =>
      SendOne(s, s', Last(s'.channel));
      HeldChanged(s.handlers, i, Waiting);
      OneHandler(s.handlers[i]);
      OneHandler(Waiting);
    case Leave(i) =>
      SendOne(s, s', Connection(-1));
      HeldChanged(s.handlers, i, Gone);
      OneHandler(Waiting);
      OneHandler(Gone);
    case Feed =>
      DisposedGrows(s.queue, Dequeue, s.maxMessages);
      assert Sent(s') == Sent(s);
    case FindEmpty =>
      DisposedGrows(s.queue, Dequeue, s.maxMessages);
      assert Sent(s') == Sent(s);
    case MeasureBacklog =>
      assert Sent(s') == Sent(s);
    case ReportBacklog => SendOne(s, s', Last(s'.channel));
    case ApplyEvent =>
      assert Sent(s') == Sent(s);
  }

  lemma NewHandler(handlers: seq<Handler>)
    ensures Held(handlers + [Waiting]) == Held(handlers).(connections := Held(handlers).connections + 1)
  {
    assert Front(handlers + [Waiting]) == handlers;
  }

  lemma OneHandler(h: Handler)
    ensures One(h) == match h
                      case Waiting => Counts(1, 0, 0)
                      case Counted(m, d) => Counts(1, m, d)
                      case Measured(m, d, _) => Counts(1, m, d)
                      case Gone => Counts(0, 0, 0)
  {
    assert Front([h]) == [];
  }

  lemma SendOne(s: State, s': State, e: ReceiverEvent)
    requires s'.applied == s.applied && s'.channel == s.channel + [e]
    requires Sent(s) != [] && NeverNegative(Sent(s)) && CountsOf(Sent(s)).connections + e.connections >= 0
    ensures Sent(s') == Sent(s) + [e] && Sent(s')[0] == Sent(s)[0] && NeverNegative(Sent(s'))
    ensures CountsOf(Sent(s')) == Counts(CountsOf(Sent(s)).connections + e.connections,
                                         CountsOf(Sent(s)).messages + e.messages,
                                         CountsOf(Sent(s)).disposed + e.disposed)
  {
    assert s'.applied + s'.channel == s.applied + s.channel + [e];
    CountsSnoc(Sent(s), e);
    SendKeeps(Sent(s), e);
  }

  lemma StartsAccounted(s: State)
    requires Init(s)
    ensures Inv(s)
  {
    assert Sent(s) == s.channel;
    assert Front(s.channel) == [];
    SendKeeps([], s.channel[0]);
    assert [] + [s.channel[0]] == s.channel;
  }

  lemma {:induction false} EveryRunInv(steps: seq<Step>, s: State)
    requires Reaches(steps, s)
    ensures Inv(s)
  {
    if steps == [] {
      StartsAccounted(s);
    } else {
      var before :| Reaches(Front(steps), before) && Takes(before, Last(steps), s);
      EveryRunInv(Front(steps), before);
      hide Reaches, Inv, Apply, Enabled;
      StepKeeps(before, Last(steps));
    }
  }

  // ---- the steps seen from outside ---------------------------------------------------------

  /** The record sets decoded in a run, and how often the feeder took one. */
  function Decoded(steps: seq<Step>): seq<RecordSet> {
    if steps == [] then []
    else Decoded(Front(steps)) + if Last(steps).Decode? then [Last(steps).rs] else []
  }

  function Feeds(steps: seq<Step>): nat {
    if steps == [] then 0 else Feeds(Front(steps)) + if Last(steps) == Feed then 1 else 0
  }

  function Accepts(steps: seq<Step>): nat {
    if steps == [] then 0 else Accepts(Front(steps)) + if Last(steps) == Accept then 1 else 0
  }

  /** In every run the queue's accounts are about what was decoded, in order, and what the feeder took; each
      connection has its handler and opened once; and the first event carries the queue's limit. */
  lemma {:induction false} DecodedAndFed(steps: seq<Step>, s: State)
    requires Reaches(steps, s)
    ensures s.queue.enqueued == Decoded(steps) && |s.queue.dequeued| == Feeds(steps)
    ensures |s.handlers| == Accepts(steps) == OpenedBy(Sent(s))
    ensures Sent(s) != [] && Sent(s)[0].maxBufferMessages == s.maxMessages
  {
    if steps == [] {
      assert Sent(s) == s.channel && Front(s.channel) == [];
    } else {
      var before :| Reaches(Front(steps), before) && Takes(before, Last(steps), s);
      DecodedAndFed(Front(steps), before);
      EveryRunInv(Front(steps), before);
      hide Reaches, Apply, Enabled;
      StepCounts(before, Last(steps));
    }
  }

  lemma StepCounts(s: State, step: Step)
    requires Inv(s) && Enabled(s, step)
    ensures var s' := Apply(s, step);
            && s'.maxMessages == s.maxMessages && Sent(s') != [] && Sent(s')[0] == Sent(s)[0]
            && s'.queue.enqueued == s.queue.enqueued + (if step.Decode? then [step.rs] else [])
            && s'.queue.dequeued == s.queue.dequeued + (if step == Feed then [s.queue.list[0]] else [])
            && |s'.handlers| == |s.handlers| + (if step == Accept then 1 else 0)
            && OpenedBy(Sent(s')) == OpenedBy(Sent(s)) + if step == Accept then 1 else 0
  {
    hide Conserved, Bounded, NeverNegative, Accounted, CountsOf, Held, Buffer.Step, OpenedBy;
    var s' := Apply(s, step);
    match step
    case Decode(_, rs) =>
      EnqueueTakesIn(s.queue, rs, s.maxMessages);
      assert Sent(s') == Sent(s);
    case Feed =>
      DequeueTakesFront(s.queue, s.maxMessages);
      assert Sent(s') == Sent(s);
    case FindEmpty =>
      DequeueTakesFront(s.queue, s.maxMessages);
      assert Sent(s') == Sent(s);
    case Accept => OpenedSnoc(s, s', Connection(1));
    case Leave(_) => OpenedSnoc(s, s', Connection(-1));
    case Report(_) => OpenedSnoc(s, s', Last(s'.channel));
    case ReportBacklog => OpenedSnoc(s, s', Last(s'.channel));
    case ApplyEvent =>
      assert Sent(s') == Sent(s);
    case Measure(_) =>
      assert Sent(s') == Sent(s);
    case MeasureBacklog =>
      assert Sent(s') == Sent(s);
  }

  lemma OpenedSnoc(s: State, s': State, e: ReceiverEvent)
    requires s'.applied == s.applied && s'.channel == s.channel + [e] && Sent(s) != []
    ensures Sent(s') != [] && Sent(s')[0] == Sent(s)[0]
    ensures OpenedBy(Sent(s')) == OpenedBy(Sent(s)) + if e.connections > 0 then e.connections else 0
  {
    assert Sent(s') == Sent(s) + [e];
    assert Front(Sent(s) + [e]) == Sent(s);
  }

  /** A length that is asked for and then reported is that of the queue at the moment it was asked for. */
  lemma ReportsBacklog(s: State, measured: State, reported: State)
    requires Conserved(s.queue) && Takes(s, MeasureBacklog, measured) && Takes(measured, ReportBacklog, reported)
    ensures reported.channel == s.channel + [ReceiverEvent([], 0, 0, 0, Total(s.queue.list), 0)]
    ensures reported.feeder == Feeding
  {
    hide Total;
  }

  /** And a handler reports it with what it counted. */
  lemma ReportsCounts(s: State, i: nat, measured: State, reported: State)
    requires Conserved(s.queue) && Takes(s, Measure(i), measured) && Takes(measured, Report(i), reported)
    ensures var h := s.handlers[i];
            h.Counted?
            && reported.channel
               == s.channel + [ReceiverEvent([], 0, h.messages, h.disposed, Total(s.queue.list), 0)]
    ensures reported.handlers == s.handlers[i := Waiting]
  {
    hide Total;
  }

  // ---- what the monitor shows --------------------------------------------------------------

  /** All events applied and no handler in the middle of a message. */
  predicate Quiet(s: State) {
    s.channel == [] && forall i :: 0 <= i < |s.handlers| ==> s.handlers[i].Waiting? || s.handlers[i].Gone?
  }

  lemma NoneOpened(events: seq<ReceiverEvent>)
    requires events != []
    ensures events[0].connections == 0 ==> OpenedBy(events[..1]) == 0
  {
    assert Front(events[..1]) == [];
  }

  /** At every moment the monitor shows between zero and all connections so far as current; and at quiet
      moments exactly the open ones, and messages minus disposed is what was fed on plus what is queued. */
  lemma MonitorAccounts(steps: seq<Step>, s: State)
    requires Reaches(steps, s) && s.applied != []
    ensures var r := ReceiverAfter(s.applied).value;
            && 0 <= r.currentConnections <= r.totalConnections
            && (Quiet(s) ==>
                  && r.currentConnections == Held(s.handlers).connections
                  && r.totalConnections == Accepts(steps)
                  && r.messages == Total(Decoded(steps))
                  && r.messages - r.disposed == Total(s.queue.dequeued) + Total(s.queue.list))
            && r.maxBufferMessages == s.maxMessages
  {
    hide Reaches, ReceiverAfter, CountsOf, Held, Total, Bounded;
    EveryRunInv(steps, s);
    DecodedAndFed(steps, s);
    NoneOpened(s.applied);
    ReceiverTotals(s.applied);
    assert Sent(s)[..|s.applied|] == s.applied && Sent(s)[0] == s.applied[0];
    HeldIsCount(s.handlers);
    if Quiet(s) {
      assert Sent(s) == s.applied;
    }
  }

  /** A connection event carries no backlog: where it was applied last, the number of buffered records
      shown is zero, and right exactly when the queue is empty of records. */
  lemma ConnectionEventHidesBacklog(steps: seq<Step>, s: State)
    requires Reaches(steps, s) && s.applied != [] && Last(s.applied).connections != 0
    ensures ReceiverAfter(s.applied).value.buffered == 0
    ensures ReceiverAfter(s.applied).value.buffered == Total(s.queue.list) <==> Total(s.queue.list) == 0
  {
    ShownBacklogIff(steps, s);
    assert Total(EMPTY.list) == 0;
  }

  /** An earlier queue: since then record sets only came in and went out. */
  predicate Earlier(at: Queue, q: Queue) {
    Conserved(at) && at.enqueued <= q.enqueued && at.disposed <= q.disposed && at.dequeued <= q.dequeued
  }

  /** Every event shows the length of an earlier queue. */
  predicate Stamped(s: State) {
    && Conserved(s.queue) && |s.asked| == |Sent(s)|
    && (forall k :: 0 <= k < |s.asked| ==> StampOk(Sent(s)[k], s.asked[k], s.queue))
    && (forall i :: 0 <= i < |s.handlers| && s.handlers[i].Measured? ==> Earlier(s.handlers[i].at, s.queue))
    && (s.feeder.Reporting? ==> Earlier(s.feeder.at, s.queue))
  }

  predicate StampOk(e: ReceiverEvent, at: Queue, q: Queue) {
    Earlier(at, q) && e.buffered == at.messages && (e.connections != 0 ==> at == EMPTY)
  }

  lemma StillEarlier(at: Queue, q: Queue, op: Op, maxMessages: int)
    requires Conserved(q) && Earlier(at, q)
    ensures Earlier(at, Buffer.Step(q, op, maxMessages))
  {
    if op.Enqueue? {
      var k := MakeRoomLeast(q, Size(op.rs), maxMessages);
    }
  }

  /** An operation on the queue, which no event is sent of. */
  lemma QueueStamped(s: State, s': State, op: Op)
    requires Stamped(s) && s'.queue == Buffer.Step(s.queue, op, s.maxMessages)
    requires s'.channel == s.channel && s'.applied == s.applied && s'.asked == s.asked
    requires |s'.handlers| == |s.handlers| && (s'.feeder == s.feeder || !s'.feeder.Reporting?)
    requires forall i :: 0 <= i < |s.handlers| && s'.handlers[i].Measured? ==> s'.handlers[i] == s.handlers[i]
    ensures Stamped(s')
  {
    DisposedGrows(s.queue, op, s.maxMessages);
    hide Conserved, Buffer.Step, Earlier;
    forall at | Earlier(at, s.queue)
      ensures Earlier(at, s'.queue)
    {
      StillEarlier(at, s.queue, op, s.maxMessages);
    }
  }

  lemma EarlierEnds(q: Queue)
    requires Conserved(q)
    ensures Earlier(EMPTY, q) && Earlier(q, q)
  {
  }

  lemma StampedKept(s: State, step: Step)
    requires Stamped(s) && Enabled(s, step)
    ensures Stamped(Apply(s, step))
  {
    hide Conserved, Earlier, Total, Buffer.Step;
    EarlierEnds(s.queue);
    var s' := Apply(s, step);
    match step
    case Decode(_, rs) => QueueStamped(s, s', Enqueue(rs));
    case Feed => QueueStamped(s, s', Dequeue);
    case FindEmpty => QueueStamped(s, s', Dequeue);
    case Accept => SendStamped(s, s', Connection(1), EMPTY);
    case Leave(_) => SendStamped(s, s', Connection(-1), EMPTY);
    case Report(i) => SendStamped(s, s', Last(s'.channel), s.handlers[i].at);
    case ReportBacklog => SendStamped(s, s', Last(s'.channel), s.feeder.at);
    case ApplyEvent =>
      assert Sent(s') == Sent(s);
    case Measure(_) =>
    case MeasureBacklog =>
  }

  lemma SendStamped(s: State, s': State, e: ReceiverEvent, at: Queue)
    requires Stamped(s) && StampOk(e, at, s.queue)
    requires s'.channel == s.channel + [e] && s'.applied == s.applied && s'.asked == s.asked + [at]
    requires s'.queue == s.queue && (s'.feeder == s.feeder || s'.feeder == Feeding)
    requires forall i :: 0 <= i < |s'.handlers| && s'.handlers[i].Measured? ==>
               i < |s.handlers| && s'.handlers[i] == s.handlers[i]
    ensures Stamped(s')
  {
    hide Conserved, Earlier;
    assert Sent(s') == Sent(s) + [e];
  }

  lemma {:induction false} EveryStamp(steps: seq<Step>, s: State)
    requires Reaches(steps, s)
    ensures Stamped(s)
  {
    if steps != [] {
      var before :| Reaches(Front(steps), before) && Takes(before, Last(steps), s);
      EveryStamp(Front(steps), before);
      hide Reaches, Stamped, Apply, Enabled;
      StampedKept(before, Last(steps));
    }
  }

  /** The backlog shown is the length of the queue as it was when the last event applied asked for it (none
      for a connection); it is right exactly when as many records came in since then as went out. */
  lemma ShownBacklogIff(steps: seq<Step>, s: State)
    requires Reaches(steps, s) && s.applied != []
    ensures |s.applied| <= |s.asked|
    ensures var shown, at, q := ReceiverAfter(s.applied).value.buffered, s.asked[|s.applied| - 1], s.queue;
            && Earlier(at, q) && shown == Total(at.list)
            && (Last(s.applied).connections != 0 ==> at == EMPTY)
            && (shown == Total(q.list)
                <==> Total(q.enqueued) - Total(at.enqueued)
                     == Total(q.disposed) - Total(at.disposed) + Total(q.dequeued) - Total(at.dequeued))
  {
    hide Reaches, ReceiverAfter, CountsOf, StampOk, Stamped, Conserved, Earlier;
    EveryStamp(steps, s);
    LastStamp(s);
    ReceiverTotals(s.applied);
    StampShows(Last(s.applied), s.asked[|s.applied| - 1], s.queue);
  }

  lemma LastStamp(s: State)
    requires Stamped(s) && s.applied != []
    ensures |s.applied| <= |s.asked| && StampOk(Last(s.applied), s.asked[|s.applied| - 1], s.queue)
    ensures Conserved(s.queue)
  {
    hide Conserved, StampOk, Earlier;
    assert Sent(s)[|s.applied| - 1] == Last(s.applied);
  }

  lemma StampShows(e: ReceiverEvent, at: Queue, q: Queue)
    requires StampOk(e, at, q) && Conserved(q)
    ensures Earlier(at, q) && e.buffered == Total(at.list) && (e.connections != 0 ==> at == EMPTY)
    ensures e.buffered == Total(q.list)
            <==> Total(q.enqueued) - Total(at.enqueued)
                 == Total(q.disposed) - Total(at.disposed) + Total(q.dequeued) - Total(at.dequeued)
  {
    hide Total;
  }

  lemma Extend(steps: seq<Step>, s: State, step: Step) returns (steps': seq<Step>, s': State)
    requires Reaches(steps, s) && Enabled(s, step)
    ensures s' == Apply(s, step) && Reaches(steps', s')
  {
    s' := Apply(s, step);
    steps' := steps + [step];
    assert Front(steps') == steps && Last(steps') == step;
    assert Takes(s, step, s');
  }

  /** One record is queued and shown; then someone connects, and none is shown. */
  lemma BacklogHidden(rs: RecordSet) returns (steps: seq<Step>, s: State)
    requires |rs.records| == 1
    ensures Reaches(steps, s) && s.channel == [] && s.queue.list == [rs] && Total(s.queue.list) == 1
    ensures |s.applied| >= 2 && Last(s.applied) == Connection(1) && ReceiverAfter(s.applied).value.buffered == 0
    ensures Last(Front(s.applied)).buffered == 1
  {
    hide Reaches, ReceiverAfter, Buffer.Step, Total;
    steps, s := OneQueued(rs);
    ghost var applied := s.applied;
    TotalOne(rs);
    steps, s := Extend(steps, s, Accept);
    steps, s := Extend(steps, s, ApplyEvent);
    assert s.applied == applied + [Connection(1)] && Front(s.applied) == applied;
    ConnectionEventHidesBacklog(steps, s);
  }

  lemma OneQueued(rs: RecordSet) returns (steps: seq<Step>, s: State)
    requires |rs.records| == 1
    ensures Reaches(steps, s) && s.channel == [] && s.queue.list == [rs]
    ensures s.applied != [] && Last(s.applied).buffered == 1
  {
    hide Buffer.Step, Total;
    var address := ReceiverEvent([], 0, 0, 0, 0, 1);
    steps, s := [], State(1, EMPTY, [], Feeding, [address], [], [EMPTY]);
    assert Reaches(steps, s);
    hide Reaches;
    FirstEnqueue(rs);
    steps, s := Extend(steps, s, Accept);
    steps, s := Extend(steps, s, Decode(0, rs));
    steps, s := ReportAndApply(steps, s);
  }

  lemma ReportAndApply(steps: seq<Step>, s: State) returns (steps': seq<Step>, s': State)
    requires Reaches(steps, s) && |s.handlers| == 1 && s.handlers[0].Counted? && |s.channel| == 2
    ensures Reaches(steps', s') && s'.channel == [] && s'.queue == s.queue
    ensures s'.applied != [] && Last(s'.applied).buffered == s.queue.messages
  {
    hide Reaches;
    steps', s' := Extend(steps, s, Measure(0));
    steps', s' := Extend(steps', s', Report(0));
    assert s'.channel[2].buffered == s.queue.messages && |s'.channel| == 3;
    steps', s' := Extend(steps', s', ApplyEvent);
    steps', s' := Extend(steps', s', ApplyEvent);
    steps', s' := Extend(steps', s', ApplyEvent);
  }

  lemma FirstEnqueue(rs: RecordSet)
    requires |rs.records| == 1
    ensures Buffer.Step(EMPTY, Enqueue(rs), 1).list == [rs] && Buffer.Step(EMPTY, Enqueue(rs), 1).messages == 1
  {
    assert [] + [rs] == [rs];
  }
}
