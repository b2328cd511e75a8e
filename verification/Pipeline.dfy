/** The whole agent for FormatNone files: any number of tailers, the bounded message channel, one sender
    and one shutdown (hydra/hydra.go), interleaved step by step. */
module Pipeline {
  import opened Prelude
  import opened Lines
  import opened Msgpack
  import opened PackedForward
  import Sender
  import Monitor
  import TailRun

  const MESSAGE_CHANNEL_BUFFER_LEN: nat := 1

  /** A tailer: its file run, the record set it is blocked on sending, and every set it has built. */
  datatype Tailer = Tailer(tag: bytes, fieldName: bytes, run: TailRun.State, pending: Option<MessageSet>,
                           built: seq<MessageSet>)

  /** A record set on its way, with the number of the tailer that sent it. */
  datatype Item = Item(from: nat, rs: MessageSet)

  datatype Sending =
    | Receiving
    | Trying(item: Item, frame: bytes, at: nat, refused: seq<Sender.Answer>)  // about to ask the logger at `at`
    | Exited

  datatype ShutdownPhase = NotBegun | ControlClosed | MessagesClosed | Complete

  /** A frame that a logger's `Send` returned nil for, after the others had given their answers. */
  datatype Accepted = Accepted(item: Item, frame: bytes, server: nat, refused: seq<Sender.Answer>)

  datatype State = State(tailers: seq<Tailer>, channel: seq<Item>, closed: bool, controlClosed: bool,
                         shutdown: ShutdownPhase, servers: nat, roundRobin: bool, eventTime: bool,
                         sending: Sending, accepted: seq<Accepted>, sentLog: seq<Item>, sentOnClosed: bool)

  datatype Step =
    | Tail(i: nat, step: TailRun.Step, now: Time)
    | Put(i: nat)
    | Receive
    | Ask(answer: Sender.Answer)
    | Exit
    | BeginShutdown
    | CloseMessages
    | CompleteShutdown

  predicate Init(s: State) {
    && (forall i :: 0 <= i < |s.tailers| ==>
          TailRun.Init(s.tailers[i].run) && s.tailers[i].pending == None && s.tailers[i].built == [])
    && s.channel == [] && !s.closed && !s.controlClosed && s.shutdown == NotBegun && s.servers > 0
    && s.sending == Receiving && s.accepted == [] && s.sentLog == [] && !s.sentOnClosed
  }

  predicate Stopped(t: Tailer) {
    t.run.phase.Exited? && t.pending == None
  }

  predicate Enabled(s: State, step: Step) {
    match step
    case Tail(i, step, _) =>
      && i < |s.tailers| && TailRun.Enabled(s.tailers[i].run, step)
      && (!TailRun.ByEnvironment(step) ==> s.tailers[i].pending == None)
      && (step.Shutdown? ==> s.controlClosed)
    case Put(i) =>
      && i < |s.tailers| && s.tailers[i].pending.Some?
      && (s.closed || |s.channel| < MESSAGE_CHANNEL_BUFFER_LEN)
    case Receive => s.sending == Receiving && s.channel != []
    case Ask(_) => s.sending.Trying? && s.servers > 0 && s.sending.at < s.servers
    case Exit => s.sending == Receiving && s.channel == [] && s.closed
    case BeginShutdown => s.shutdown == NotBegun
    case CloseMessages =>
      s.shutdown == ControlClosed && forall i :: 0 <= i < |s.tailers| ==> Stopped(s.tailers[i])
    case CompleteShutdown => s.shutdown == MessagesClosed && s.sending == Exited
  }

  /** `NewFluentRecordSet` on values. */
  function RecordSetOf(tag: bytes, fieldName: bytes, now: Time, block: bytes): MessageSet {
    var lines := Split(block, LF);
    MessageSet(tag, seq(|lines|, i requires 0 <= i < |lines| => Message(now, fieldName, lines[i])))
  }

  function Frame(rs: MessageSet, eventTime: bool): bytes {
    PackSet(rs.tag, PackBody(rs.records, eventTime))
  }

  /** A step of the file run; the block that a read may add becomes the record set to send. */
  function TailStep(t: Tailer, step: TailRun.Step, now: Time): Tailer
    requires TailRun.Enabled(t.run, step)
  {
    var run := TailRun.Apply(t.run, step);
    if |run.sent| > |t.run.sent| then
      var rs := RecordSetOf(t.tag, t.fieldName, now, Last(run.sent));
      t.(run := run, pending := Some(rs), built := t.built + [rs])
    else t.(run := run)
  }

  function Apply(s: State, step: Step): State
    requires Enabled(s, step)
  {
    match step
    case Tail(i, step, now) => s.(tailers := s.tailers[i := TailStep(s.tailers[i], step, now)])
    case Put(i) =>
      if s.closed then s.(sentOnClosed := true)
      else
        var item := Item(i, s.tailers[i].pending.value);
        s.(tailers := s.tailers[i := s.tailers[i].(pending := None)],
           channel := s.channel + [item], sentLog := s.sentLog + [item])
    case Receive =>
      s.(sending := Trying(s.channel[0], Frame(s.channel[0].rs, s.eventTime), 0, []), channel := s.channel[1..])
    case Ask(answer) =>
      if answer == Sender.Accepts then
        var order := Sender.Order(Sender.Servers(s.servers), |s.accepted|, s.roundRobin);
        s.(sending := Receiving,
           accepted := s.accepted
                       + [Accepted(s.sending.item, s.sending.frame, order[s.sending.at], s.sending.refused)])
      else
        var next := s.sending.at + 1;
        s.(sending := s.sending.(at := if next < s.servers then next else 0,
                                        refused := s.sending.refused + [answer]))
    case Exit => s.(sending := Exited)
    case BeginShutdown => s.(shutdown := ControlClosed, controlClosed := true)
    case CloseMessages => s.(shutdown := MessagesClosed, closed := true)
    case CompleteShutdown => s.(shutdown := Complete)
  }

  predicate Takes(s: State, step: Step, s': State) {
    Enabled(s, step) && s' == Apply(s, step)
  }

  ghost predicate Reaches(steps: seq<Step>, s: State) {
    if steps == [] then Init(s)
    else exists before :: Reaches(Front(steps), before) && Takes(before, Last(steps), s)
  }

  // ---- the invariant -------------------------------------------------------------------

  function SetLines(rs: MessageSet): seq<bytes> {
    seq(|rs.records|, i requires 0 <= i < |rs.records| => rs.records[i].message)
  }

  function AllLines(sets: seq<MessageSet>): seq<bytes> {
    if sets == [] then [] else AllLines(Front(sets)) + SetLines(Last(sets))
  }

  /** The record sets of one tailer, in order. */
  function Of(items: seq<Item>, i: nat): seq<MessageSet> {
    if items == [] then []
    else Of(Front(items), i) + (if Last(items).from == i then [Last(items).rs] else [])
  }

  function AcceptedItems(accepted: seq<Accepted>): seq<Item> {
    seq(|accepted|, k requires 0 <= k < |accepted| => accepted[k].item)
  }

  function InHand(sending: Sending): seq<Item> {
    if sending.Trying? then [sending.item] else []
  }

  function Pending(t: Tailer): seq<MessageSet> {
    if t.pending.Some? then [t.pending.value] else []
  }

  predicate TailerOk(t: Tailer, sent: seq<MessageSet>) {
    && TailRun.Inv(t.run)
    && AllLines(t.built) == BlocksLines(t.run.sent)
    && t.built == sent + Pending(t)
  }

  /** Nothing is lost, doubled or reordered between the tailers and the servers. */
  predicate Inv(s: State) {
    && !s.sentOnClosed && s.servers > 0
    && (s.closed ==> forall i :: 0 <= i < |s.tailers| ==> Stopped(s.tailers[i]))
    && s.sentLog == AcceptedItems(s.accepted) + InHand(s.sending) + s.channel
    && (forall i :: 0 <= i < |s.tailers| ==> TailerOk(s.tailers[i], Of(s.sentLog, i)))
    && (s.sending.Trying? ==> s.sending.frame == Frame(s.sending.item.rs, s.eventTime))
    && (forall k :: 0 <= k < |s.accepted| ==> s.accepted[k].frame == Frame(s.accepted[k].item.rs, s.eventTime))
    && (s.sending == Exited ==> s.closed && s.channel == [])
  }

  lemma SetLinesOf(tag: bytes, fieldName: bytes, now: Time, block: bytes)
    ensures SetLines(RecordSetOf(tag, fieldName, now, block)) == Split(block, LF)
  {
    hide Split;
  }

  lemma AllLinesSnoc(sets: seq<MessageSet>, rs: MessageSet)
    ensures AllLines(sets + [rs]) == AllLines(sets) + SetLines(rs)
  {
    assert Front(sets + [rs]) == sets;
  }

  lemma OfSnoc(items: seq<Item>, item: Item, i: nat)
    ensures Of(items + [item], i) == Of(items, i) + (if item.from == i then [item.rs] else [])
  {
    assert Front(items + [item]) == items;
  }

  lemma BlocksSnoc(blocks: seq<bytes>, block: bytes)
    ensures BlocksLines(blocks + [block]) == BlocksLines(blocks) + Split(block, LF)
  {
    BlocksLinesConcat(blocks, [block]);
    assert BlocksLines([block]) == Split(block, LF) + BlocksLines([]);
  }

  /** A step of a file run adds at most one block, and none when the environment takes it. */
  lemma AtMostOneBlock(s: TailRun.State, step: TailRun.Step)
    requires TailRun.Enabled(s, step)
    ensures var s' := TailRun.Apply(s, step);
            s'.sent == s.sent || (!TailRun.ByEnvironment(step) && s'.sent == s.sent + [Last(s'.sent)])
    ensures s.phase.Exited? ==> TailRun.ByEnvironment(step) && TailRun.Apply(s, step).phase.Exited?
  {
    hide Consume;
  }

  lemma TailKeeps(t: Tailer, sent: seq<MessageSet>, step: TailRun.Step, now: Time)
    requires TailerOk(t, sent) && TailRun.Enabled(t.run, step)
    requires !TailRun.ByEnvironment(step) ==> t.pending == None
    ensures TailerOk(TailStep(t, step, now), sent)
    ensures Stopped(t) ==> Stopped(TailStep(t, step, now))
  {
    hide TailRun.Inv, TailRun.Apply, TailRun.Enabled, Split, BlocksLines, AllLines;
    TailRun.StepKeeps(t.run, step);
    AtMostOneBlock(t.run, step);
    var t' := TailStep(t, step, now);
    if |t'.run.sent| > |t.run.sent| {
      var block := Last(t'.run.sent);
      SetLinesOf(t.tag, t.fieldName, now, block);
      AllLinesSnoc(t.built, Last(t'.built));
      BlocksSnoc(t.run.sent, block);
      assert sent + [] == sent;
    }
  }

  lemma TailStepKeeps(s: State, i: nat, step: TailRun.Step, now: Time)
    requires Inv(s) && Enabled(s, Tail(i, step, now))
    ensures Inv(Apply(s, Tail(i, step, now)))
  {
    hide TailRun.Inv, TailRun.Apply, TailRun.Enabled, TailStep, Of, TailerOk, Frame, Stopped;
    TailKeeps(s.tailers[i], Of(s.sentLog, i), step, now);
  }

  lemma PutKeeps(s: State, i: nat)
    requires Inv(s) && Enabled(s, Put(i))
    ensures Inv(Apply(s, Put(i)))
  {
    hide TailRun.Inv, Of, Frame, AllLines, BlocksLines;
    var s' := Apply(s, Put(i));
    assert !s.closed by { assert s.closed ==> Stopped(s.tailers[i]); }
    var item := Item(i, s.tailers[i].pending.value);
    forall j | 0 <= j < |s'.tailers|
      ensures TailerOk(s'.tailers[j], Of(s'.sentLog, j))
    {
      OfSnoc(s.sentLog, item, j);
      assert TailerOk(s.tailers[j], Of(s.sentLog, j));
    }
  }

  lemma ReceiveKeeps(s: State)
    requires Inv(s) && Enabled(s, Receive)
    ensures Inv(Apply(s, Receive))
  {
    hide TailerOk, Of, Frame, Stopped, AcceptedItems;
    assert s.channel == [s.channel[0]] + s.channel[1..];
  }

  lemma AskKeeps(s: State, answer: Sender.Answer)
    requires Inv(s) && Enabled(s, Ask(answer))
    ensures Inv(Apply(s, Ask(answer)))
  {
    hide TailerOk, Of, Frame, Stopped, AcceptedItems, Sender.Order, Sender.Servers;
    var s' := Apply(s, Ask(answer));
    if answer == Sender.Accepts {
      AcceptedSnoc(s.accepted, Last(s'.accepted));
      assert InHand(s'.sending) == [];
    }
  }

  lemma AcceptedSnoc(accepted: seq<Accepted>, a: Accepted)
    ensures AcceptedItems(accepted + [a]) == AcceptedItems(accepted) + [a.item]
  {
  }

  lemma StepKeeps(s: State, step: Step)
    requires Inv(s) && Enabled(s, step)
    ensures Inv(Apply(s, step))
  {
    match step
    case Tail(i, tailStep, now) => TailStepKeeps(s, i, tailStep, now);
    case Put(i) => PutKeeps(s, i);
    case Receive => ReceiveKeeps(s);
    case Ask(answer) => AskKeeps(s, answer);
    case Exit =>
    case BeginShutdown =>
    case CloseMessages =>
    case CompleteShutdown =>
  }

  lemma StartsOk(s: State)
    requires Init(s)
    ensures Inv(s)
  {
    assert BlocksLines([]) == [] && TailRun.LinesRead([]) == [];
    forall i | 0 <= i < |s.tailers|
      ensures TailerOk(s.tailers[i], Of(s.sentLog, i))
    {
      assert TailRun.Openings(s.tailers[i].run) == [];
    }
  }

  lemma {:induction false} EveryRun(steps: seq<Step>, s: State)
    requires Reaches(steps, s)
    ensures Inv(s)
  {
    if steps == [] {
      StartsOk(s);
    } else {
      var before :| Reaches(Front(steps), before) && Takes(before, Last(steps), s);
      EveryRun(Front(steps), before);
      hide Inv;
      StepKeeps(before, Last(steps));
    }
  }

  // ---- who gets what ----------------------------------------------------------------------

  /** The position in the order that the sender has reached after `r` refusals. */
  function Slot(n: nat, r: nat): (at: nat)
    requires n > 0
    ensures at < n
  {
    r % n
  }

  /** Who is asked for record set `k` after `r` refusals. */
  function ServerAsked(n: nat, roundRobin: bool, k: nat, r: nat): nat
    requires n > 0
  {
    Sender.Order(Sender.Servers(n), k, roundRobin)[Slot(n, r)]
  }

  /** Refusals move the sender on around the order, one logger each. */
  predicate InTurn(s: State) {
    && s.servers > 0
    && (s.sending.Trying? ==>
          s.sending.at == Slot(s.servers, |s.sending.refused|) && Sender.Accepts !in s.sending.refused)
    && forall k :: 0 <= k < |s.accepted| ==>
         && s.accepted[k].server == ServerAsked(s.servers, s.roundRobin, k, |s.accepted[k].refused|)
         && Sender.Accepts !in s.accepted[k].refused
  }

  lemma NextInTurn(r: nat, n: nat)
    requires n > 0
    ensures Slot(n, 0) == 0
    ensures Slot(n, r + 1) == if Slot(n, r) + 1 < n then Slot(n, r) + 1 else 0
  {
    if r % n + 1 < n {
      DivModUnique(r + 1, n, r / n, r % n + 1);
    } else {
      assert r + 1 == n * (r / n) + n == n * (r / n + 1);
      DivModUnique(r + 1, n, r / n + 1, 0);
    }
  }

  lemma TurnKept(s: State, step: Step)
    requires InTurn(s) && Enabled(s, step)
    ensures InTurn(Apply(s, step))
  {
    match step
    case Ask(answer) => AskTurnKept(s, answer);
    case Receive => NextInTurn(0, s.servers);
    case _ => OthersKeepSender(s, step);
  }

  lemma AskTurnKept(s: State, answer: Sender.Answer)
    requires InTurn(s) && Enabled(s, Ask(answer))
    ensures InTurn(Apply(s, Ask(answer)))
  {
    hide Sender.Order, Sender.Servers, Slot;
    NextInTurn(|s.sending.refused|, s.servers);
  }

  lemma OthersKeepSender(s: State, step: Step)
    requires Enabled(s, step) && !step.Ask? && !step.Receive?
    ensures var s' := Apply(s, step);
            && s'.accepted == s.accepted && (s'.sending == s.sending || s'.sending == Exited)
            && s'.servers == s.servers && s'.roundRobin == s.roundRobin
  {
    hide TailStep, TailRun.Enabled;
  }

  lemma {:induction false} EveryTurn(steps: seq<Step>, s: State)
    requires Reaches(steps, s)
    ensures InTurn(s)
  {
    if steps != [] {
      var before :| Reaches(Front(steps), before) && Takes(before, Last(steps), s);
      EveryTurn(Front(steps), before);
      hide Reaches, InTurn, Apply, Enabled;
      TurnKept(before, Last(steps));
    }
  }

  lemma AskedInTurn(n: nat, roundRobin: bool, k: nat, r: nat)
    requires n > 0
    ensures ServerAsked(n, roundRobin, k, r) == Sender.Turn(n, if roundRobin then k else 0, r)
  {
    hide Sender.Order;
    if roundRobin {
      Sender.RotationIsCyclic(n, k, Slot(n, r));
      TurnSlot(n, k, r);
    } else {
      ListOrder(n, k);
    }
  }

  /** The k-th accepted record set, after r refusals, is with server (k + r) mod n under round robin, and
      with server r mod n otherwise: each set's first choice is the next server, whatever befell the others. */
  lemma ServersInTurn(steps: seq<Step>, s: State, k: nat)
    requires Reaches(steps, s) && k < |s.accepted|
    ensures s.servers > 0
    ensures s.accepted[k].server == Sender.Turn(s.servers, if s.roundRobin then k else 0, |s.accepted[k].refused|)
  {
    hide Reaches, ServerAsked, Sender.Turn;
    EveryTurn(steps, s);
    AskedInTurn(s.servers, s.roundRobin, k, |s.accepted[k].refused|);
  }

  /** Each accepted set is the one delivery, as `Sender.Delivered` has it, that fits what the loggers
      answered in this run; and its server is the one at that delivery's position. */
  lemma DeliveredInRun(steps: seq<Step>, s: State, k: nat)
    requires Reaches(steps, s) && k < |s.accepted|
    ensures s.servers > 0
    ensures var order, a := Sender.Order(Sender.Servers(s.servers), k, s.roundRobin), s.accepted[k];
            var answers := a.refused + [Sender.Accepts];
            && |order| == s.servers
            && (exists net :: Sender.Answered(order, net, answers))
            && (forall net, pass: nat, at: nat :: Sender.Answered(order, net, answers) ==>
                  (Sender.Delivered(order, net, pass, at)
                   <==> pass == |a.refused| / s.servers && at == |a.refused| % s.servers))
            && a.server == order[|a.refused| % s.servers]
  {
    EveryTurn(steps, s);
    var n, a := s.servers, s.accepted[k];
    var order := Sender.Order(Sender.Servers(n), k, s.roundRobin);
    Sender.OrderIsPermutation(n, k, s.roundRobin);
    hide Reaches, InTurn, Sender.Order, Sender.Servers, Sender.Answered, Sender.Delivered;
    var some := Sender.SomeNetwork(order, a.refused + [Sender.Accepts]);
    forall net | Sender.Answered(order, net, a.refused + [Sender.Accepts])
      ensures forall pass: nat, at: nat :: Sender.Delivered(order, net, pass, at)
                                           <==> pass == |a.refused| / n && at == |a.refused| % n
    {
      Sender.DeliveredBy(order, net, a.refused);
    }
  }

  function ServersOf(accepted: seq<Accepted>): seq<nat> {
    seq(|accepted|, k requires 0 <= k < |accepted| => accepted[k].server)
  }

  /** In a round-robin run where no logger ever refused, each of the n servers has accepted floor(m/n) or
      ceil(m/n) of the m record sets, the first servers in the list one more than the others. */
  lemma RoundRobinFair(steps: seq<Step>, s: State, j: nat)
    requires Reaches(steps, s) && s.roundRobin && j < s.servers
    requires forall k :: 0 <= k < |s.accepted| ==> s.accepted[k].refused == []
    ensures var n, m := s.servers, |s.accepted|;
            Sender.Received(ServersOf(s.accepted), j) == m / n + if j < m % n then 1 else 0
  {
    hide Reaches, Sender.Received;
    forall k | 0 <= k < |s.accepted|
      ensures s.accepted[k].server == k % s.servers
    {
      ServersInTurn(steps, s, k);
    }
    Sender.RoundRobinFair(ServersOf(s.accepted), s.servers, j);
  }

  lemma ListOrder(n: nat, k: nat)
    ensures Sender.Order(Sender.Servers(n), k, false) == Sender.Servers(n)
  {
  }

  lemma TurnSlot(n: nat, k: nat, r: nat)
    requires n > 0
    ensures Sender.Turn(n, k, Slot(n, r)) == Sender.Turn(n, k, r)
  {
    assert k + r == n * (r / n) + (k + r % n);
    AddMultiple(k + r % n, n, r / n);
  }

  lemma AddMultiple(a: nat, n: nat, q: nat)
    requires n > 0
    ensures (n * q + a) % n == a % n
  {
    assert n * q + a == n * (q + a / n) + a % n;
    DivModUnique(n * q + a, n, q + a / n, a % n);
  }

  // ---- end to end ------------------------------------------------------------------------

  /** In every interleaving no tailer ever sends on the closed channel; and once the sender has exited, the
      accepted record sets are exactly those sent, each once and in order, and those of one tailer hold
      exactly the complete lines of the bytes it read, opening by opening. */
  lemma EndToEnd(steps: seq<Step>, s: State)
    requires Reaches(steps, s)
    ensures !s.sentOnClosed
    ensures s.sending == Exited ==>
              && AcceptedItems(s.accepted) == s.sentLog
              && forall i :: 0 <= i < |s.tailers| ==>
                   && Stopped(s.tailers[i])
                   && Of(AcceptedItems(s.accepted), i) == s.tailers[i].built
                   && AllLines(Of(AcceptedItems(s.accepted), i))
                      == TailRun.LinesRead(TailRun.Openings(s.tailers[i].run))
  {
    EveryRun(steps, s);
    hide AllLines, Of, BlocksLines, TailRun.LinesRead, TailRun.Openings;
    if s.sending == Exited {
      assert AcceptedItems(s.accepted) + [] + [] == AcceptedItems(s.accepted);
      forall i | 0 <= i < |s.tailers|
        ensures Stopped(s.tailers[i]) && Of(s.sentLog, i) == s.tailers[i].built
        ensures AllLines(s.tailers[i].built) == TailRun.LinesRead(TailRun.Openings(s.tailers[i].run))
      {
        assert TailerOk(s.tailers[i], Of(s.sentLog, i));
        assert Of(s.sentLog, i) + [] == Of(s.sentLog, i);
      }
    }
  }

  // ---- the statistics ----------------------------------------------------------------------

  /** What the sender reports of its deliveries. */
  function Events(accepted: seq<Accepted>): seq<Sender.SentEvent> {
    seq(|accepted|, k requires 0 <= k < |accepted| => EventOf(accepted[k]))
  }

  function EventOf(a: Accepted): Sender.SentEvent {
    Sender.SentEvent(a.item.rs.tag, |a.item.rs.records|, |a.frame|, 1)
  }

  /** Everything built carries its tailer's tag and field name. */
  predicate Tagged(s: State) {
    && (forall k :: 0 <= k < |s.sentLog| ==> TaggedItem(s.tailers, s.sentLog[k]))
    && (forall i :: 0 <= i < |s.tailers| && s.tailers[i].pending.Some? ==>
          BuiltBy(s.tailers[i].tag, s.tailers[i].fieldName, s.tailers[i].pending.value))
  }

  predicate TaggedItem(tailers: seq<Tailer>, item: Item) {
    item.from < |tailers| && BuiltBy(tailers[item.from].tag, tailers[item.from].fieldName, item.rs)
  }

  predicate BuiltBy(tag: bytes, fieldName: bytes, rs: MessageSet) {
    rs.tag == tag && forall j :: 0 <= j < |rs.records| ==> rs.records[j].fieldName == fieldName
  }

  /** The tailers with tag `tag`, and for each of them the lines of its sets among `items`. */
  function LinesTagged(tailers: seq<Tailer>, items: seq<Item>, tag: bytes, n: nat): nat
    requires n <= |tailers|
  {
    if n == 0 then 0
    else
      LinesTagged(tailers, items, tag, n - 1)
      + if tailers[n - 1].tag == tag then |AllLines(Of(items, n - 1))| else 0
  }

  /** The lines that the tailers with tag `tag` read. */
  function LinesReadTagged(tailers: seq<Tailer>, tag: bytes, n: nat): nat
    requires n <= |tailers|
  {
    if n == 0 then 0
    else
      LinesReadTagged(tailers, tag, n - 1)
      + if tailers[n - 1].tag == tag then |TailRun.LinesRead(TailRun.Openings(tailers[n - 1].run))| else 0
  }

  lemma TailTagged(t: Tailer, step: TailRun.Step, now: Time)
    requires TailRun.Enabled(t.run, step) && (t.pending.Some? ==> BuiltBy(t.tag, t.fieldName, t.pending.value))
    ensures var t' := TailStep(t, step, now);
            && t'.tag == t.tag && t'.fieldName == t.fieldName
            && (t'.pending.Some? ==> BuiltBy(t.tag, t.fieldName, t'.pending.value))
  {
    hide TailRun.Enabled, TailRun.Apply, Split;
  }

  lemma TailTaggedKept(s: State, i: nat, step: TailRun.Step, now: Time)
    requires Tagged(s) && Enabled(s, Tail(i, step, now))
    ensures Tagged(Apply(s, Tail(i, step, now)))
  {
    hide TailStep, TailRun.Enabled, BuiltBy;
    TailTagged(s.tailers[i], step, now);
  }

  lemma PutTaggedKept(s: State, i: nat)
    requires Tagged(s) && Enabled(s, Put(i))
    ensures Tagged(Apply(s, Put(i)))
  {
    hide BuiltBy;
  }

  lemma TaggedKept(s: State, step: Step)
    requires Tagged(s) && Enabled(s, step)
    ensures Tagged(Apply(s, step))
  {
    match step
    case Tail(i, tailStep, now) => TailTaggedKept(s, i, tailStep, now);
    case Put(i) => PutTaggedKept(s, i);
    case _ => OthersKeepTailers(s, step);
  }

  lemma OthersKeepTailers(s: State, step: Step)
    requires Enabled(s, step) && !step.Tail? && !step.Put?
    ensures Apply(s, step).tailers == s.tailers && Apply(s, step).sentLog == s.sentLog
  {
    hide Frame, TailStep, TailRun.Enabled, Sender.Order, Sender.Servers;
  }

  lemma {:induction false} EveryTagged(steps: seq<Step>, s: State)
    requires Reaches(steps, s)
    ensures Tagged(s)
  {
    if steps != [] {
      var before :| Reaches(Front(steps), before) && Takes(before, Last(steps), s);
      EveryTagged(Front(steps), before);
      hide Reaches, Tagged, Apply, Enabled;
      TaggedKept(before, Last(steps));
    }
  }

  lemma {:induction false} OneMoreTagged(tailers: seq<Tailer>, items: seq<Item>, item: Item, tag: bytes, n: nat)
    requires n <= |tailers| && TaggedItem(tailers, item)
    ensures LinesTagged(tailers, items + [item], tag, n)
            == LinesTagged(tailers, items, tag, n)
               + if item.from < n && item.rs.tag == tag then |item.rs.records| else 0
  {
    hide AllLines, Of;
    if n > 0 {
      OneMoreTagged(tailers, items, item, tag, n - 1);
      OfSnoc(items, item, n - 1);
      AllLinesSnoc(Of(items, n - 1), item.rs);
      assert Of(items, n - 1) + [] == Of(items, n - 1);
    }
  }

  lemma {:induction false} NoneTagged(tailers: seq<Tailer>, tag: bytes, n: nat)
    requires n <= |tailers|
    ensures LinesTagged(tailers, [], tag, n) == 0
  {
    if n > 0 {
      NoneTagged(tailers, tag, n - 1);
    }
  }

  lemma {:induction false} SumTagged(tailers: seq<Tailer>, accepted: seq<Accepted>, tag: bytes)
    requires forall k :: 0 <= k < |accepted| ==> TaggedItem(tailers, accepted[k].item)
    ensures Monitor.SumFor(Events(accepted), tag).messages
            == LinesTagged(tailers, AcceptedItems(accepted), tag, |tailers|)
  {
    hide LinesTagged;
    if accepted == [] {
      NoneTagged(tailers, tag, |tailers|);
    } else {
      var last := Last(accepted);
      SumTagged(tailers, Front(accepted), tag);
      OneMoreTagged(tailers, AcceptedItems(Front(accepted)), last.item, tag, |tailers|);
      assert AcceptedItems(accepted) == AcceptedItems(Front(accepted)) + [last.item];
      assert Front(Events(accepted)) == Events(Front(accepted)) && Last(Events(accepted)) == EventOf(last);
    }
  }

  /** The frames accepted under a tag. */
  function FramesTagged(accepted: seq<Accepted>, tag: bytes): seq<bytes> {
    if accepted == [] then []
    else FramesTagged(Front(accepted), tag) + if Last(accepted).item.rs.tag == tag then [Last(accepted).frame] else []
  }

  /** Sents and bytes are the number and the length of the frames accepted under the tag. */
  lemma {:induction false} FramesCounted(accepted: seq<Accepted>, tag: bytes)
    ensures var t := Monitor.SumFor(Events(accepted), tag);
            && t.sents == |FramesTagged(accepted, tag)|
            && t.size == |Flatten(FramesTagged(accepted, tag))|
  {
    if accepted != [] {
      var last := Last(accepted);
      FramesCounted(Front(accepted), tag);
      assert Front(Events(accepted)) == Events(Front(accepted)) && Last(Events(accepted)) == EventOf(last);
      var before := FramesTagged(Front(accepted), tag);
      FlattenSnoc(before, last.frame);
      assert before + [] == before;
    }
  }

  /** When the sender has exited, the messages that its events add up to for a tag are as many as the lines
      that the tailers with that tag have read, in all their openings; and the sents and bytes are those of
      the frames accepted under it. */
  lemma StatisticsEndToEnd(steps: seq<Step>, s: State, tag: bytes)
    requires Reaches(steps, s) && s.sending == Exited
    ensures var t := Monitor.SumFor(Events(s.accepted), tag);
            && t.messages == LinesReadTagged(s.tailers, tag, |s.tailers|)
            && t.sents == |FramesTagged(s.accepted, tag)| && t.size == |Flatten(FramesTagged(s.accepted, tag))|
  {
    EndToEnd(steps, s);
    EveryTagged(steps, s);
    FramesCounted(s.accepted, tag);
    hide Reaches, Events, Monitor.SumFor, FramesTagged, Flatten;
    forall k | 0 <= k < |s.accepted|
      ensures TaggedItem(s.tailers, s.accepted[k].item)
    {
      assert AcceptedItems(s.accepted)[k] == s.sentLog[k];
    }
    SumTagged(s.tailers, s.accepted, tag);
    SameLines(s.tailers, AcceptedItems(s.accepted), tag, |s.tailers|);
  }

  lemma {:induction false} SameLines(tailers: seq<Tailer>, items: seq<Item>, tag: bytes, n: nat)
    requires n <= |tailers|
    requires forall i :: 0 <= i < n ==>
               AllLines(Of(items, i)) == TailRun.LinesRead(TailRun.Openings(tailers[i].run))
    ensures LinesTagged(tailers, items, tag, n) == LinesReadTagged(tailers, tag, n)
  {
    hide AllLines, Of, TailRun.LinesRead, TailRun.Openings;
    if n > 0 {
      SameLines(tailers, items, tag, n - 1);
    }
  }

  predicate NeverTruncated(closed: seq<TailRun.Closed>) {
    forall j :: 0 <= j < |closed| ==> closed[j].clean && TailRun.ClosedOk(closed[j])
  }

  /** The complete lines of the stretch of file that each opening read, taken from the file's contents. */
  function FileLines(closed: seq<TailRun.Closed>): seq<bytes>
    requires NeverTruncated(closed)
  {
    if closed == [] then []
    else
      var c := Last(closed);
      FileLines(Front(closed)) + CompleteLines(c.contents[c.h.start..c.h.start + |c.h.read|])
  }

  lemma {:induction false} FileLinesRead(closed: seq<TailRun.Closed>, hs: seq<TailRun.Handle>)
    requires NeverTruncated(closed) && |hs| == |closed| && forall j :: 0 <= j < |hs| ==> hs[j] == closed[j].h
    ensures TailRun.LinesRead(hs) == FileLines(closed)
  {
    hide CompleteLines, BlocksLines, Fragment;
    if closed != [] {
      FileLinesRead(Front(closed), Front(hs));
      assert TailRun.ClosedOk(Last(closed));
    }
  }

  /** Files that were never truncated arrive as they are on disk: the accepted lines of a tailer are the
      complete lines of the stretches it read, generation by generation, and a generation that a rename
      closed was read to its end. */
  lemma FilesArrive(steps: seq<Step>, s: State, i: nat)
    requires Reaches(steps, s) && s.sending == Exited && i < |s.tailers|
    requires forall j :: 0 <= j < |s.tailers[i].run.closed| ==> s.tailers[i].run.closed[j].clean
    ensures var closed := s.tailers[i].run.closed;
            && NeverTruncated(closed)
            && AllLines(Of(AcceptedItems(s.accepted), i)) == FileLines(closed)
            && forall j :: 0 <= j < |closed| && closed[j].drained ==>
                 closed[j].h.start + |closed[j].h.read| == |closed[j].contents|
  {
    hide Reaches, AllLines, Of, FileLines, NeverTruncated, TailRun.LinesRead;
    EndToEnd(steps, s);
    ClosedClean(steps, s, i);
    FileLinesRead(s.tailers[i].run.closed, TailRun.Openings(s.tailers[i].run));
  }

  lemma ClosedClean(steps: seq<Step>, s: State, i: nat)
    requires Reaches(steps, s) && i < |s.tailers|
    requires forall j :: 0 <= j < |s.tailers[i].run.closed| ==> s.tailers[i].run.closed[j].clean
    ensures var closed := s.tailers[i].run.closed;
            && NeverTruncated(closed)
            && forall j :: 0 <= j < |closed| && closed[j].drained ==>
                 closed[j].h.start + |closed[j].h.read| == |closed[j].contents|
  {
    EveryRun(steps, s);
    hide Reaches, Of, BlocksLines, CompleteLines, Fragment, TailRun.LinesRead, TailRun.Openings, TailRun.HandleOk;
    assert TailerOk(s.tailers[i], Of(s.sentLog, i));
    forall j | 0 <= j < |s.tailers[i].run.closed|
      ensures TailRun.ClosedOk(s.tailers[i].run.closed[j])
    {
    }
  }

  // ---- what arrives --------------------------------------------------------------------------

  /** What the frame's length fields can express. */
  predicate Fits(a: Accepted, eventTime: bool) {
    |a.item.rs.tag| < TWO32 && ShortRecords(a.item.rs.records) && |PackBody(a.item.rs.records, eventTime)| < TWO32
  }

  /** What was accepted can be read: each accepted frame was built by its tailer, and decodes to the tag and
      records that it was built from. */
  lemma AcceptedFramesDecode(steps: seq<Step>, s: State, k: nat, floatSeconds: FloatSeconds)
    requires Reaches(steps, s) && k < |s.accepted| && Fits(s.accepted[k], s.eventTime)
    ensures var a := s.accepted[k];
            && TaggedItem(s.tailers, a.item)
            && DecodeEntries(a.frame, floatSeconds)
               == Ok(RecordSet(s.tailers[a.item.from].tag, Arriving(a.item.rs.records, s.eventTime)))
  {
    hide ShortRecords, DecodeEntries, Arriving, PackBody;
    AcceptedBuilt(steps, s, k);
    RoundTrip(s.accepted[k].item.rs, s.eventTime, floatSeconds);
  }

  lemma AcceptedBuilt(steps: seq<Step>, s: State, k: nat)
    requires Reaches(steps, s) && k < |s.accepted|
    ensures TaggedItem(s.tailers, s.accepted[k].item)
    ensures s.accepted[k].frame == Frame(s.accepted[k].item.rs, s.eventTime)
  {
    EveryRun(steps, s);
    EveryTagged(steps, s);
    hide Reaches, Frame, TailerOk, TaggedItem;
    assert s.sentLog[k] == AcceptedItems(s.accepted)[k] == s.accepted[k].item;
  }

  /** The message that an entry holds under the field name. */
  function Text(e: Entry, fieldName: bytes): bytes {
    if fieldName in e.data && e.data[fieldName].GoString? then e.data[fieldName].s else []
  }

  function Texts(r: Result<RecordSet>, fieldName: bytes): seq<bytes> {
    match r
    case Err(_) => []
    case Ok(rs) => seq(|rs.records|, j requires 0 <= j < |rs.records| => Text(rs.records[j], fieldName))
  }

  /** The messages in the frames of one tailer, as whoever accepted them decodes them, in order. */
  function Arrived(accepted: seq<Accepted>, i: nat, fieldName: bytes, floatSeconds: FloatSeconds): seq<bytes> {
    if accepted == [] then []
    else
      var last := Last(accepted);
      Arrived(Front(accepted), i, fieldName, floatSeconds)
      + if last.item.from == i then Texts(DecodeEntries(last.frame, floatSeconds), fieldName) else []
  }

  lemma TextsArrive(rs: MessageSet, fieldName: bytes, eventTime: bool)
    requires BuiltBy(rs.tag, fieldName, rs)
    ensures Texts(Ok(RecordSet(rs.tag, Arriving(rs.records, eventTime))), fieldName) == SetLines(rs)
  {
  }

  lemma {:induction false} ArrivedLines(accepted: seq<Accepted>, i: nat, tag: bytes, fieldName: bytes, eventTime: bool,
                                        floatSeconds: FloatSeconds)
    requires forall k :: 0 <= k < |accepted| && accepted[k].item.from == i ==>
               && BuiltBy(tag, fieldName, accepted[k].item.rs)
               && DecodeEntries(accepted[k].frame, floatSeconds)
                  == Ok(RecordSet(tag, Arriving(accepted[k].item.rs.records, eventTime)))
    ensures Arrived(accepted, i, fieldName, floatSeconds) == AllLines(Of(AcceptedItems(accepted), i))
  {
    hide DecodeEntries, Arriving, Texts, SetLines;
    if accepted != [] {
      var front, last := Front(accepted), Last(accepted);
      ArrivedLines(front, i, tag, fieldName, eventTime, floatSeconds);
      assert AcceptedItems(accepted) == AcceptedItems(front) + [last.item];
      OfSnoc(AcceptedItems(front), last.item, i);
      if last.item.from == i {
        TextsArrive(last.item.rs, fieldName, eventTime);
        AllLinesSnoc(Of(AcceptedItems(front), i), last.item.rs);
      }
      assert Of(AcceptedItems(front), i) + [] == Of(AcceptedItems(front), i);
    }
  }

  /** From the file to the far end: when the sender has exited, decoding the accepted frames of a tailer, in
      order, gives exactly the complete lines of the bytes that it read, opening by opening. */
  lemma LinesArrive(steps: seq<Step>, s: State, i: nat, floatSeconds: FloatSeconds)
    requires Reaches(steps, s) && s.sending == Exited && i < |s.tailers|
    requires forall k :: 0 <= k < |s.accepted| && s.accepted[k].item.from == i ==> Fits(s.accepted[k], s.eventTime)
    ensures Arrived(s.accepted, i, s.tailers[i].fieldName, floatSeconds)
            == TailRun.LinesRead(TailRun.Openings(s.tailers[i].run))
  {
    var t := s.tailers[i];
    hide DecodeEntries, Arriving, Arrived, AllLines, Of, Fits, Frame, TailRun.LinesRead, TailRun.Openings;
    forall k | 0 <= k < |s.accepted| && s.accepted[k].item.from == i
      ensures BuiltBy(t.tag, t.fieldName, s.accepted[k].item.rs)
      ensures DecodeEntries(s.accepted[k].frame, floatSeconds)
              == Ok(RecordSet(t.tag, Arriving(s.accepted[k].item.rs.records, s.eventTime)))
    {
      AcceptedFramesDecode(steps, s, k, floatSeconds);
    }
    ArrivedLines(s.accepted, i, t.tag, t.fieldName, s.eventTime, floatSeconds);
    EndToEnd(steps, s);
  }

  // ---- when it was built ------------------------------------------------------------------------

  /** A run with all its states: before the first step, between the steps, and after the last one. */
  predicate Ran(steps: seq<Step>, states: seq<State>) {
    && |states| == |steps| + 1 && Init(states[0])
    && forall k :: 0 <= k < |steps| ==> Takes(states[k], steps[k], states[k + 1])
  }

  lemma RanFront(steps: seq<Step>, states: seq<State>)
    requires Ran(steps, states) && steps != []
    ensures Ran(Front(steps), Front(states)) && Takes(Last(Front(states)), Last(steps), Last(states))
  {
    hide Init, Takes;
    var before, front := Front(steps), Front(states);
    forall k | 0 <= k < |before|
      ensures Takes(front[k], before[k], front[k + 1])
    {
      assert Takes(states[k], steps[k], states[k + 1]);
    }
  }

  lemma {:induction false} RanReaches(steps: seq<Step>, states: seq<State>)
    requires Ran(steps, states)
    ensures Reaches(steps, Last(states))
  {
    if steps != [] {
      hide Init, Takes;
      RanFront(steps, states);
      RanReaches(Front(steps), Front(states));
    }
  }

  /** Every reachable state is the last one of such a run. */
  lemma {:induction false} ReachesRan(steps: seq<Step>, s: State) returns (states: seq<State>)
    requires Reaches(steps, s)
    ensures Ran(steps, states) && Last(states) == s
  {
    if steps == [] {
      states := [s];
    } else {
      var before :| Reaches(Front(steps), before) && Takes(before, Last(steps), s);
      var front := ReachesRan(Front(steps), before);
      states := front + [s];
      hide Reaches, Init, Takes;
      forall k | 0 <= k < |steps|
        ensures Takes(states[k], steps[k], states[k + 1])
      {
        assert k < |Front(steps)| ==> Takes(front[k], Front(steps)[k], front[k + 1]);
      }
    }
  }

  /** The step in which tailer `i` cuts one more block. */
  predicate AddsBlock(s: State, step: Step, s': State, i: nat) {
    step.Tail? && step.i == i && i < |s.tailers| && i < |s'.tailers|
    && |s'.tailers[i].run.sent| > |s.tailers[i].run.sent|
  }

  /** The clock at the steps in which tailer `i` cut a block, in order. */
  function BlockTimes(steps: seq<Step>, states: seq<State>, i: nat): seq<Time>
    requires |states| == |steps| + 1
  {
    if steps == [] then []
    else
      BlockTimes(Front(steps), Front(states), i)
      + if AddsBlock(states[|steps| - 1], Last(steps), Last(states), i) then [Last(steps).now] else []
  }

  predicate BuiltAt(rs: MessageSet, now: Time) {
    forall j :: 0 <= j < |rs.records| ==> rs.records[j].ts == now
  }

  predicate AllBuiltAt(sets: seq<MessageSet>, times: seq<Time>) {
    |sets| == |times| && forall j :: 0 <= j < |sets| ==> BuiltAt(sets[j], times[j])
  }

  lemma BuildsOne(t: Tailer, step: TailRun.Step, now: Time)
    requires TailRun.Enabled(t.run, step)
    ensures var t' := TailStep(t, step, now);
            && t'.tag == t.tag && t'.fieldName == t.fieldName && t'.run == TailRun.Apply(t.run, step)
            && if |t'.run.sent| > |t.run.sent|
               then t'.built == t.built + [Last(t'.built)] && BuiltAt(Last(t'.built), now)
               else t'.built == t.built
  {
    hide TailRun.Enabled, TailRun.Apply, Split;
  }

  lemma BuiltStep(s: State, step: Step, i: nat)
    requires Enabled(s, step) && i < |s.tailers|
    ensures var s' := Apply(s, step);
            && |s'.tailers| == |s.tailers|
            && if AddsBlock(s, step, s', i)
               then s'.tailers[i].built == s.tailers[i].built + [Last(s'.tailers[i].built)]
                    && BuiltAt(Last(s'.tailers[i].built), step.now)
               else s'.tailers[i].built == s.tailers[i].built
  {
    hide TailStep, TailRun.Enabled, BuiltAt, Frame, Sender.Order;
    match step
    case Tail(j, tailStep, now) => BuildsOne(s.tailers[j], tailStep, now);
    case Put(_) =>
    case _ => OthersKeepTailers(s, step);
  }

  /** In every run the records of the j-th set that tailer `i` built carry the clock's value at the j-th step
      in which it cut a block. */
  lemma {:induction false} RecordTimes(steps: seq<Step>, states: seq<State>, i: nat)
    requires Ran(steps, states) && i < |Last(states).tailers|
    ensures AllBuiltAt(Last(states).tailers[i].built, BlockTimes(steps, states, i))
  {
    if steps == [] {
      assert BlockTimes(steps, states, i) == [];
    } else {
      RanFront(steps, states);
      var before := Last(Front(states));
      hide Ran, BuiltAt, Init, Apply, Enabled;
      SameTailers(before, Last(steps));
      BuiltStep(before, Last(steps), i);
      RecordTimes(Front(steps), Front(states), i);
    }
  }

  lemma SameTailers(s: State, step: Step)
    requires Enabled(s, step)
    ensures |Apply(s, step).tailers| == |s.tailers|
  {
    hide TailStep, TailRun.Enabled, Frame, Sender.Order;
  }

  lemma {:induction false} OfIndex(items: seq<Item>, k: nat)
    requires k < |items|
    ensures var i := items[k].from;
            var j := |Of(items[..k], i)|;
            j < |Of(items, i)| && Of(items, i)[j] == items[k].rs
  {
    if k == |items| - 1 {
      assert items[..k] == Front(items);
    } else {
      OfIndex(Front(items), k);
      assert Front(items)[..k] == items[..k];
    }
  }

  /** An accepted frame decodes to entries with the time at which its tailer cut the block, as the format
      carries it: it is the tailer's j-th block, when j of its sets were accepted before. */
  lemma ArrivalTimes(steps: seq<Step>, states: seq<State>, k: nat, floatSeconds: FloatSeconds)
    requires Ran(steps, states) && k < |Last(states).accepted|
    requires Fits(Last(states).accepted[k], Last(states).eventTime)
    ensures var s := Last(states);
            var a := s.accepted[k];
            var times, j := BlockTimes(steps, states, a.item.from), |Of(AcceptedItems(s.accepted[..k]), a.item.from)|;
            var decoded := DecodeEntries(a.frame, floatSeconds);
            && decoded.Ok? && j < |times|
            && forall e <- decoded.value.records :: e.ts == Carried(times[j], s.eventTime)
  {
    var s := Last(states);
    var i := s.accepted[k].item.from;
    RanReaches(steps, states);
    hide Ran, Reaches, Fits, Of, BlockTimes;
    AcceptedFramesDecode(steps, s, k, floatSeconds);
    RecordTimes(steps, states, i);
    AcceptedIsBuilt(steps, s, k);
  }

  lemma AcceptedIsBuilt(steps: seq<Step>, s: State, k: nat)
    requires Reaches(steps, s) && k < |s.accepted| && s.accepted[k].item.from < |s.tailers|
    ensures var i := s.accepted[k].item.from;
            var j := |Of(AcceptedItems(s.accepted[..k]), i)|;
            j < |s.tailers[i].built| && s.tailers[i].built[j] == s.accepted[k].item.rs
  {
    EveryRun(steps, s);
    hide Reaches, Inv, Of;
    InSentOrder(s, k);
    OfIndex(s.sentLog, k);
    SentWasBuilt(s, s.accepted[k].item.from);
  }

  lemma InSentOrder(s: State, k: nat)
    requires Inv(s) && k < |s.accepted|
    ensures k < |s.sentLog| && s.sentLog[k] == s.accepted[k].item
    ensures s.sentLog[..k] == AcceptedItems(s.accepted[..k])
  {
    hide TailerOk, Of, Frame;
    assert s.sentLog[k] == AcceptedItems(s.accepted)[k];
    assert s.sentLog[..k] == AcceptedItems(s.accepted)[..k];
  }

  lemma SentWasBuilt(s: State, i: nat)
    requires Inv(s) && i < |s.tailers|
    ensures Of(s.sentLog, i) <= s.tailers[i].built
  {
    hide Of, AllLines, BlocksLines, TailRun.Inv, Frame;
    assert TailerOk(s.tailers[i], Of(s.sentLog, i));
  }

  // ---- the shutdown -------------------------------------------------------------------------------

  /** The channel keeps its bound, and the shutdown goes through its phases in order: it returns only after
      the sender has exited. */
  predicate Phased(s: State) {
    && |s.channel| <= MESSAGE_CHANNEL_BUFFER_LEN
    && (s.controlClosed <==> s.shutdown != NotBegun)
    && (s.closed <==> s.shutdown == MessagesClosed || s.shutdown == Complete)
    && (s.shutdown == Complete ==> s.sending == Exited)
    && (forall i :: 0 <= i < |s.tailers| && s.tailers[i].run.phase.Exited? ==> s.controlClosed)
  }

  lemma TailExits(s: TailRun.State, step: TailRun.Step)
    requires TailRun.Enabled(s, step) && TailRun.Apply(s, step).phase.Exited?
    ensures s.phase.Exited? || step.Shutdown?
  {
    hide Consume;
  }

  lemma TailPhased(s: State, i: nat, step: TailRun.Step, now: Time)
    requires Phased(s) && Enabled(s, Tail(i, step, now))
    ensures Phased(Apply(s, Tail(i, step, now)))
  {
    hide TailRun.Enabled, TailRun.Apply, RecordSetOf;
    var t := TailStep(s.tailers[i], step, now);
    if t.run.phase.Exited? {
      TailExits(s.tailers[i].run, step);
    }
  }

  lemma PhasedKept(s: State, step: Step)
    requires Phased(s) && Enabled(s, step)
    ensures Phased(Apply(s, step))
  {
    match step
    case Tail(i, tailStep, now) => TailPhased(s, i, tailStep, now);
    case Put(i) => PutPhased(s, i);
    case _ => OthersKeepTailers(s, step); OtherPhased(s, step);
  }

  lemma PutPhased(s: State, i: nat)
    requires Phased(s) && Enabled(s, Put(i))
    ensures Phased(Apply(s, Put(i)))
  {
  }

  lemma OtherPhased(s: State, step: Step)
    requires Phased(s) && Enabled(s, step) && !step.Tail? && !step.Put? && Apply(s, step).tailers == s.tailers
    ensures Phased(Apply(s, step))
  {
    hide Frame, TailStep, TailRun.Enabled, Sender.Order, Sender.Servers;
  }

  lemma {:induction false} EveryPhase(steps: seq<Step>, s: State)
    requires Reaches(steps, s)
    ensures Phased(s)
  {
    if steps != [] {
      var before :| Reaches(Front(steps), before) && Takes(before, Last(steps), s);
      EveryPhase(Front(steps), before);
      hide Reaches, Phased, Apply, Enabled;
      PhasedKept(before, Last(steps));
    }
  }

  /** When `Shutdown` has returned, every tailer has stopped and every record set that any of them ever built
      has been accepted; and the channel never holds more than its bound. */
  lemma ShutdownDelivers(steps: seq<Step>, s: State)
    requires Reaches(steps, s)
    ensures |s.channel| <= MESSAGE_CHANNEL_BUFFER_LEN
    ensures s.shutdown == Complete ==>
              && s.channel == [] && AcceptedItems(s.accepted) == s.sentLog
              && forall i :: 0 <= i < |s.tailers| ==>
                   Stopped(s.tailers[i]) && Of(AcceptedItems(s.accepted), i) == s.tailers[i].built
  {
    EveryPhase(steps, s);
    EndToEnd(steps, s);
    EveryRun(steps, s);
  }

  /** The steps can be taken from `s`, and at their end `Shutdown` has returned. */
  predicate Finishes(s: State, steps: seq<Step>)
    decreases |steps|
  {
    if steps == [] then s.shutdown == Complete
    else Enabled(s, steps[0]) && Finishes(Apply(s, steps[0]), steps[1..])
  }

  ghost predicate CanFinish(s: State) {
    exists steps :: Finishes(s, steps)
  }

  lemma Before(s: State, step: Step)
    requires Enabled(s, step) && CanFinish(Apply(s, step))
    ensures CanFinish(s)
  {
    var steps :| Finishes(Apply(s, step), steps);
    assert ([step] + steps)[1..] == steps;
    assert Finishes(s, [step] + steps);
  }

  /** How far a tailer is from having stopped. */
  function Work(t: Tailer): nat {
    (match t.run.phase
     case Exited => 0
     case Opening(_) => 1
     case Watching(_) => 1
     case Checking(_) => 2
     case Reading(_, _) => 2) + if t.pending.Some? then 1 else 0
  }

  function AllWork(tailers: seq<Tailer>): nat {
    if tailers == [] then 0 else AllWork(Front(tailers)) + Work(Last(tailers))
  }

  lemma {:induction false} LessWork(tailers: seq<Tailer>, i: nat, t: Tailer)
    requires i < |tailers| && Work(t) < Work(tailers[i])
    ensures AllWork(tailers[i := t]) < AllWork(tailers)
  {
    hide Work;
    if i == |tailers| - 1 {
      assert Front(tailers[i := t]) == Front(tailers);
    } else {
      assert Front(tailers[i := t]) == Front(tailers)[i := t];
      LessWork(Front(tailers), i, t);
    }
  }

  function Rank(p: ShutdownPhase): nat {
    match p
    case NotBegun => 3
    case ControlClosed => 2
    case MessagesClosed => 1
    case Complete => 0
  }

  function Undelivered(s: State): nat {
    2 * |s.channel| + (if s.sending.Trying? then 1 else 0) + if s.sending == Exited then 0 else 1
  }

  /** A step that brings a tailer closer to its end, when nothing waits for the sender. */
  function TailerStep(s: State, i: nat): Step
    requires i < |s.tailers|
  {
    var t := s.tailers[i];
    if t.pending.Some? then Put(i)
    else
      Tail(i, match t.run.phase
              case Checking(_) => TailRun.Check(true)
              case Reading(_, _) => TailRun.ReadFails
              case _ => TailRun.Shutdown, Time(0, 0))
  }

  lemma TailerStepWorks(s: State, i: nat)
    requires Inv(s) && Phased(s) && s.shutdown == ControlClosed && s.channel == []
    requires i < |s.tailers| && !Stopped(s.tailers[i])
    ensures Enabled(s, TailerStep(s, i))
    ensures AllWork(Apply(s, TailerStep(s, i)).tailers) < AllWork(s.tailers)
    ensures Apply(s, TailerStep(s, i)).shutdown == s.shutdown
  {
    hide Of, AllLines, BlocksLines, AllWork, Frame;
    var t, step := s.tailers[i], TailerStep(s, i);
    assert TailRun.Inv(t.run) by { assert TailerOk(t, Of(s.sentLog, i)); }
    if t.pending.None? {
      RunStepWorks(t, step);
    }
    LessWork(s.tailers, i, Apply(s, step).tailers[i]);
    assert Apply(s, step).tailers == s.tailers[i := Apply(s, step).tailers[i]];
  }

  lemma RunStepWorks(t: Tailer, step: Step)
    requires TailRun.Inv(t.run) && !Stopped(t) && t.pending == None && step.Tail?
    requires step.step == match t.run.phase
                          case Checking(_) => TailRun.Check(true)
                          case Reading(_, _) => TailRun.ReadFails
                          case _ => TailRun.Shutdown
    ensures TailRun.Enabled(t.run, step.step) && Work(TailStep(t, step.step, step.now)) < Work(t)
  {
    hide BlocksLines, CompleteLines, Fragment, TailRun.LinesRead, TailRun.Openings, RecordSetOf;
  }

  /** One step nearer to the end: of the shutdown, of the tailers, or of what is under way. */
  predicate Nearer(s: State, s': State) {
    || Rank(s'.shutdown) < Rank(s.shutdown)
    || (s'.shutdown == s.shutdown && AllWork(s'.tailers) < AllWork(s.tailers))
    || (s'.shutdown == s.shutdown && s'.tailers == s.tailers && Undelivered(s') < Undelivered(s))
  }

  /** There always is such a step, when the servers accept. */
  lemma NextStep(s: State) returns (step: Step)
    requires Inv(s) && Phased(s) && s.shutdown != Complete
    requires s.sending.Trying? ==> s.sending.at < s.servers
    ensures Enabled(s, step) && Nearer(s, Apply(s, step))
  {
    hide AllWork, TailerOk, Of, Frame, TailerStep, TailRun.Enabled, TailStep;
    if s.shutdown == NotBegun {
      step := BeginShutdown;
    } else if s.sending.Trying? {
      step := Ask(Sender.Accepts);
    } else if s.sending == Receiving && s.channel != [] {
      step := Receive;
    } else if s.shutdown == ControlClosed {
      if i: nat :| i < |s.tailers| && !Stopped(s.tailers[i]) {
        TailerStepWorks(s, i);
        step := TailerStep(s, i);
      } else {
        step := CloseMessages;
      }
    } else if s.sending == Receiving {
      step := Exit;
    } else {
      step := CompleteShutdown;
    }
  }

  /** No deadlock: from every reachable state, if the servers accept, the agent can still shut down, with
      everything delivered that was built. */
  lemma ShutdownPossible(steps: seq<Step>, s: State)
    requires Reaches(steps, s)
    ensures CanFinish(s)
  {
    EveryRun(steps, s);
    EveryPhase(steps, s);
    EveryTurn(steps, s);
    hide Reaches;
    FinishFrom(s);
  }

  lemma {:induction false} FinishFrom(s: State)
    requires Inv(s) && Phased(s) && InTurn(s)
    ensures CanFinish(s)
    decreases Rank(s.shutdown), AllWork(s.tailers), Undelivered(s)
  {
    if s.shutdown == Complete {
      assert Finishes(s, []);
    } else {
      hide Inv, Phased, Apply, Enabled, CanFinish, AllWork;
      var step := NextStep(s);
      StepKeeps(s, step);
      PhasedKept(s, step);
      TurnKept(s, step);
      FinishFrom(Apply(s, step));
      Before(s, step);
    }
  }
}
