/** One server connection (fluent/fluent.go): the sending goroutine interleaved, step by step, with any
    number of background reconnectors that share `conn` and the `reconnecting` flag with it. */
module Reconnect {
  import opened Prelude

  /** Where a reconnector stands in `reconnect`: in `connect`, waiting for the timeout or a cancel, at the
      lock in front of clearing the flag, or returned. */
  datatype Worker = Dialing | Waiting | Clearing | Returned

  /** What `connect` may do: a connection, a failed dial (which stores nil), an address that cannot be
      looked up (which stores nothing), or an empty lookup, reported as success. */
  datatype Dial = DialOk | DialFails | LookupFails | LookupEmpty

  /** Where the sending goroutine stands. */
  datatype Sender =
    | Idle
    | SendStart       // at `if f.conn == nil`
    | SendLocked      // in the branch without a connection, holding the lock
    | SetDeadline     // at `f.conn.SetWriteDeadline`
    | WriteBuffer     // at `f.conn.Write`
    | RefreshClose
    | RefreshDial
    | NilConnection   // a method was called on a nil connection
    | Stopped

  datatype State = State(conn: bool, reconnecting: bool, canceled: bool, sent: nat, sender: Sender,
                         workers: seq<Worker>, refreshFailed: bool)

  datatype Step =
    | CheckReconnecting
    | TestConn
    | StartReconnect
    | Deadline
    | Write(ok: bool)
    | CloseForRefresh
    | DialForRefresh(outcome: Dial)
    | Shutdown
    | WorkerDials(i: nat, outcome: Dial)
    | WorkerTimeout(i: nat)
    | WorkerCanceled(i: nat)
    | WorkerClears(i: nat)

  const MAX_KEEP_ALIVE_SENT_COUNT: nat := 100

  /** After `New`: connected or not, and about to send the empty buffer of `NewOutForward`. */
  predicate Init(s: State) {
    s == State(s.conn, false, false, 0, SendStart, [], false)
  }

  predicate Enabled(s: State, step: Step) {
    match step
    case CheckReconnecting => s.sender == Idle
    case TestConn => s.sender == SendStart
    case StartReconnect => s.sender == SendLocked
    case Deadline => s.sender == SetDeadline
    case Write(_) => s.sender == WriteBuffer
    case CloseForRefresh => s.sender == RefreshClose
    case DialForRefresh(_) => s.sender == RefreshDial
    case Shutdown => s.sender == Idle
    case WorkerDials(i, _) => i < |s.workers| && s.workers[i] == Dialing
    case WorkerTimeout(i) => i < |s.workers| && s.workers[i] == Waiting
    case WorkerCanceled(i) => i < |s.workers| && s.workers[i] == Waiting && s.canceled
    case WorkerClears(i) => i < |s.workers| && s.workers[i] == Clearing
  }

  /** `f.conn` after `connect`. */
  function Connect(conn: bool, outcome: Dial): bool {
    match outcome
    case DialOk => true
    case DialFails => false
    case LookupFails => conn
    case LookupEmpty => conn
  }

  function Apply(s: State, step: Step): State
    requires Enabled(s, step)
  {
    match step
    case CheckReconnecting => if s.reconnecting then s else s.(sender := SendStart)
    case TestConn => s.(sender := if s.conn then SetDeadline else SendLocked)
    case StartReconnect =>
      if s.reconnecting then s.(sender := Idle)
      else s.(sender := Idle, reconnecting := true, workers := s.workers + [Dialing])
    case Deadline => s.(sender := if s.conn then WriteBuffer else NilConnection)
    case Write(ok) =>
      if !s.conn then s.(sender := NilConnection)
      else if !ok then s.(sender := Idle, conn := false, sent := s.sent + 1)
      else s.(sent := s.sent + 1,
              sender := if (s.sent + 1) % MAX_KEEP_ALIVE_SENT_COUNT == 0 then RefreshClose else Idle)
    case CloseForRefresh => s.(sender := RefreshDial, conn := false)
    case DialForRefresh(outcome) =>
      var connected := s.(sender := Idle, conn := Connect(s.conn, outcome));
      if outcome == DialOk || outcome == LookupEmpty then connected
      else connected.(workers := s.workers + [Dialing], refreshFailed := true)
    case Shutdown => s.(sender := Stopped, canceled := s.canceled || s.reconnecting, conn := false)
    case WorkerDials(i, outcome) =>
      var next := if outcome == DialOk || outcome == LookupEmpty then Clearing else Waiting;
      s.(conn := Connect(s.conn, outcome), workers := s.workers[i := next])
    case WorkerTimeout(i) => s.(workers := s.workers[i := Dialing])
    case WorkerCanceled(i) => s.(workers := s.workers[i := Clearing])
    case WorkerClears(i) => s.(reconnecting := false, workers := s.workers[i := Returned])
  }

  predicate Takes(s: State, step: Step, s': State) {
    Enabled(s, step) && s' == Apply(s, step)
  }

  ghost predicate Reaches(steps: seq<Step>, s: State) {
    if steps == [] then Init(s)
    else exists before :: Reaches(Front(steps), before) && Takes(before, Last(steps), s)
  }

  // ---- the flag -------------------------------------------------------------------

  predicate Running(s: State, i: nat) {
    i < |s.workers| && s.workers[i] != Returned
  }

  /** Reconnector `i` returns in this step. */
  predicate Returns(s: State, step: Step, i: nat)
    requires Enabled(s, step)
  {
    Running(s, i) && !Running(Apply(s, step), i)
  }

  /** In every reachable state, overlapping reconnectors included, a set flag means that some reconnector
      is still running; and none returns, on success or on cancel, without clearing the flag. */
  lemma {:induction false} FlagIsNeverStuck(steps: seq<Step>, s: State)
    requires Reaches(steps, s)
    ensures s.reconnecting ==> exists i: nat :: Running(s, i)
    ensures forall step, i: nat :: Enabled(s, step) && Returns(s, step, i) ==> !Apply(s, step).reconnecting
  {
    forall step, i: nat | Enabled(s, step) && Returns(s, step, i)
      ensures !Apply(s, step).reconnecting
    {
      ReturnsCleared(s, step, i);
    }
    if steps != [] {
      var before :| Reaches(Front(steps), before) && Takes(before, Last(steps), s);
      FlagIsNeverStuck(Front(steps), before);
      hide Apply, Enabled, Reaches;
      FlagKept(before, Last(steps));
    }
  }

  lemma ReturnsCleared(s: State, step: Step, i: nat)
    requires Enabled(s, step) && Returns(s, step, i)
    ensures !Apply(s, step).reconnecting
  {
  }

  lemma FlagKept(s: State, step: Step)
    requires Enabled(s, step)
    requires s.reconnecting ==> exists i: nat :: Running(s, i)
    ensures Apply(s, step).reconnecting ==> exists i: nat :: Running(Apply(s, step), i)
  {
    var s' := Apply(s, step);
    if s'.reconnecting {
      if s.reconnecting {
        var i: nat :| Running(s, i);
        assert Running(s', i);
      } else {
        assert Running(s', |s.workers|);
      }
    }
  }

  // ---- the connection under the sender's feet ---------------------------------------

  predicate Sending(s: State) {
    s.sender == SendStart || s.sender == SendLocked || s.sender == SetDeadline || s.sender == WriteBuffer
  }

  /** What holds as long as no refresh has failed: the flag tells exactly whether a reconnector runs, there
      is never a second one, and none runs while the sender is inside `Send`. */
  ghost predicate Exclusive(s: State) {
    && (forall i: nat :: Running(s, i) ==> s.reconnecting)
    && (forall i: nat, j: nat :: Running(s, i) && Running(s, j) ==> i == j)
    && (Sending(s) ==> !s.reconnecting)
    && (s.sender == SetDeadline || s.sender == WriteBuffer ==> s.conn)
    && (s.sender == RefreshClose || s.sender == RefreshDial ==> !s.reconnecting)
    && s.sender != NilConnection
  }

  /** The sender calls a method on a nil connection only in runs where a `RefreshConnection` failed. */
  lemma {:induction false} NilConnectionNeedsFailedRefresh(steps: seq<Step>, s: State)
    requires Reaches(steps, s)
    ensures !s.refreshFailed ==> Exclusive(s)
    ensures s.sender == NilConnection ==> s.refreshFailed
  {
    if steps != [] {
      var step := Last(steps);
      var before :| Reaches(Front(steps), before) && Takes(before, step, s);
      NilConnectionNeedsFailedRefresh(Front(steps), before);
      if !s.refreshFailed {
        ExclusiveKept(before, step);
      }
    }
  }

  lemma ExclusiveKept(s: State, step: Step)
    requires Enabled(s, step) && Exclusive(s) && !RefreshFails(step)
    ensures Exclusive(Apply(s, step))
  {
    var s' := Apply(s, step);
    assert step.WorkerDials? || step.WorkerTimeout? || step.WorkerCanceled? || step.WorkerClears? ==>
        Running(s, step.i);
    forall i: nat | Running(s', i)
      ensures Running(s, i) || (i == |s.workers| && step == StartReconnect && !s.reconnecting)
    {
    }
  }

  // ---- which states lead to a nil connection -----------------------------------------

  predicate RefreshFails(step: Step) {
    step.DialForRefresh? && (step.outcome == DialFails || step.outcome == LookupFails)
  }

  /** The steps can be taken from `s`, no refresh fails among them, and a nil connection is used at the end. */
  ghost predicate DropsIn(s: State, steps: seq<Step>)
    decreases |steps|
  {
    if steps == [] then s.sender == NilConnection
    else Enabled(s, steps[0]) && !RefreshFails(steps[0]) && DropsIn(Apply(s, steps[0]), steps[1..])
  }

  ghost predicate CanDrop(s: State) {
    exists steps :: DropsIn(s, steps)
  }

  /** A reconnector runs although the flag is clear, or two run. */
  predicate Loose(s: State) {
    || (!s.reconnecting && exists i: nat :: i < |s.workers| && Running(s, i))
    || exists i: nat, j: nat :: i < j < |s.workers| && Running(s, i) && Running(s, j)
  }

  lemma LooseIff(s: State)
    requires s.sender == Idle
    ensures Exclusive(s) <==> !Loose(s)
  {
    if Loose(s) {
      if !s.reconnecting && exists i: nat :: i < |s.workers| && Running(s, i) {
        var i: nat :| i < |s.workers| && Running(s, i);
      } else {
        var i: nat, j: nat :| i < j < |s.workers| && Running(s, i) && Running(s, j);
      }
    }
  }

  lemma {:induction false} ExclusiveNeverDrops(s: State, steps: seq<Step>)
    requires Exclusive(s)
    ensures !DropsIn(s, steps)
    decreases |steps|
  {
    if steps != [] && Enabled(s, steps[0]) && !RefreshFails(steps[0]) {
      ExclusiveKept(s, steps[0]);
      ExclusiveNeverDrops(Apply(s, steps[0]), steps[1..]);
    }
  }

  lemma Before(s: State, step: Step)
    requires Enabled(s, step) && !RefreshFails(step) && CanDrop(Apply(s, step))
    ensures CanDrop(s)
  {
    var steps :| DropsIn(Apply(s, step), steps);
    assert ([step] + steps)[1..] == steps;
    assert DropsIn(s, [step] + steps);
  }

  /** Connected and about to send, while a dial is under way: it fails between the test and the write. */
  lemma DialUnderSend(s: State, j: nat)
    requires s.sender == SetDeadline && s.conn && j < |s.workers| && s.workers[j] == Dialing
    ensures CanDrop(s)
  {
    hide CanDrop;
    var lost := Apply(s, WorkerDials(j, DialFails));
    assert CanDrop(Apply(lost, Deadline)) by { AlreadyDropped(Apply(lost, Deadline)); }
    Before(lost, Deadline);
    Before(s, WorkerDials(j, DialFails));
  }

  lemma AlreadyDropped(s: State)
    requires s.sender == NilConnection
    ensures CanDrop(s)
  {
    assert DropsIn(s, []);
  }

  lemma DialWhileConnected(s: State, j: nat)
    requires s.sender == Idle && !s.reconnecting && s.conn && j < |s.workers| && s.workers[j] == Dialing
    ensures CanDrop(s)
  {
    hide CanDrop;
    var start := Apply(s, CheckReconnecting);
    DialUnderSend(Apply(start, TestConn), j);
    Before(start, TestConn);
    Before(s, CheckReconnecting);
  }

  /** Without a connection the next send starts a second reconnector, which connects and clears the flag. */
  lemma DialWhileDisconnected(s: State, j: nat)
    requires s.sender == Idle && !s.reconnecting && !s.conn && j < |s.workers| && s.workers[j] == Dialing
    ensures CanDrop(s)
  {
    hide CanDrop;
    var k := |s.workers|;
    var started := s.(reconnecting := true, workers := s.workers + [Dialing]);
    var dialed := Apply(started, WorkerDials(k, DialOk));
    DialWhileConnected(Apply(dialed, WorkerClears(k)), j);
    Before(dialed, WorkerClears(k));
    Before(started, WorkerDials(k, DialOk));
    SendStarts(s);
  }

  /** A send without a connection, while the flag is clear, starts a reconnector. */
  lemma SendStarts(s: State)
    requires s.sender == Idle && !s.reconnecting && !s.conn
    requires CanDrop(s.(reconnecting := true, workers := s.workers + [Dialing]))
    ensures CanDrop(s)
  {
    hide CanDrop;
    var start := Apply(s, CheckReconnecting);
    var locked := Apply(start, TestConn);
    Before(locked, StartReconnect);
    Before(start, TestConn);
    Before(s, CheckReconnecting);
  }

  lemma DialWhileIdle(s: State, j: nat)
    requires s.sender == Idle && !s.reconnecting && j < |s.workers| && s.workers[j] == Dialing
    ensures CanDrop(s)
  {
    if s.conn {
      DialWhileConnected(s, j);
    } else {
      DialWhileDisconnected(s, j);
    }
  }

  /** A reconnector past its dial only clears the flag; but it clears it under the next one. */
  lemma ClearingDisconnected(s: State, j: nat)
    requires s.sender == Idle && !s.reconnecting && !s.conn && j < |s.workers| && s.workers[j] == Clearing
    ensures CanDrop(s)
  {
    hide CanDrop;
    var started := s.(reconnecting := true, workers := s.workers + [Dialing]);
    DialWhileIdle(Apply(started, WorkerClears(j)), |s.workers|);
    Before(started, WorkerClears(j));
    SendStarts(s);
  }

  /** A write that fails leaves no connection. */
  lemma ClearingWhileIdle(s: State, j: nat)
    requires s.sender == Idle && !s.reconnecting && j < |s.workers| && s.workers[j] == Clearing
    ensures CanDrop(s)
  {
    if s.conn {
      hide CanDrop;
      var start := Apply(s, CheckReconnecting);
      var deadline := Apply(start, TestConn);
      var write := Apply(deadline, Deadline);
      ClearingDisconnected(Apply(write, Write(false)), j);
      Before(write, Write(false));
      Before(deadline, Deadline);
      Before(start, TestConn);
      Before(s, CheckReconnecting);
    } else {
      ClearingDisconnected(s, j);
    }
  }

  lemma UnflaggedDrops(s: State, j: nat)
    requires s.sender == Idle && !s.reconnecting && Running(s, j)
    ensures CanDrop(s)
  {
    match s.workers[j]
    case Dialing => DialWhileIdle(s, j);
    case Clearing => ClearingWhileIdle(s, j);
    case Waiting =>
      DialWhileIdle(Apply(s, WorkerTimeout(j)), j);
      Before(s, WorkerTimeout(j));
  }

  /** Of two, the first to finish clears the flag under the other. */
  lemma TwoDrop(s: State, i: nat, j: nat)
    requires s.sender == Idle && Running(s, i) && Running(s, j) && i != j
    ensures CanDrop(s)
    decreases if s.workers[i] == Waiting then 2 else if s.workers[i] == Dialing then 1 else 0
  {
    hide CanDrop;
    match s.workers[i]
    case Waiting =>
      TwoDrop(Apply(s, WorkerTimeout(i)), i, j);
      Before(s, WorkerTimeout(i));
    case Dialing =>
      TwoDrop(Apply(s, WorkerDials(i, DialOk)), i, j);
      Before(s, WorkerDials(i, DialOk));
    case Clearing =>
      UnflaggedDrops(Apply(s, WorkerClears(i)), j);
      Before(s, WorkerClears(i));
  }

  /** Between two sends, a nil connection can be used later without another failed refresh exactly when a
      reconnector runs with the flag clear, or two run. */
  lemma NilConnectionIff(s: State)
    requires s.sender == Idle
    ensures CanDrop(s) <==> Loose(s)
  {
    hide CanDrop, DropsIn, Apply, Enabled;
    LooseIff(s);
    if Loose(s) {
      if !s.reconnecting && exists i: nat :: i < |s.workers| && Running(s, i) {
        var i: nat :| i < |s.workers| && Running(s, i);
        UnflaggedDrops(s, i);
      } else {
        var i: nat, j: nat :| i < j < |s.workers| && Running(s, i) && Running(s, j);
        TwoDrop(s, i, j);
      }
    } else {
      NeverDrops(s);
    }
  }

  lemma NeverDrops(s: State)
    requires Exclusive(s)
    ensures !CanDrop(s)
  {
    hide DropsIn, Exclusive;
    forall steps
      ensures !DropsIn(s, steps)
    {
      ExclusiveNeverDrops(s, steps);
    }
  }

  /** Every failed refresh of every run leaves such a state behind. */
  lemma FailedRefreshIsLoose(steps: seq<Step>, s: State, step: Step)
    requires Reaches(steps, s) && Enabled(s, step) && RefreshFails(step)
    ensures Apply(s, step).sender == Idle && Loose(Apply(s, step)) && CanDrop(Apply(s, step))
  {
    FlagIsNeverStuck(steps, s);
    var s', k := Apply(s, step), |s.workers|;
    assert Running(s', k);
    if s.reconnecting {
      var i: nat :| Running(s, i);
      assert Running(s', i) && i < k;
    }
    NilConnectionIff(s');
  }

  lemma Extend(steps: seq<Step>, s: State, step: Step) returns (steps': seq<Step>, s': State)
    requires Reaches(steps, s) && Enabled(s, step)
    ensures s' == Apply(s, step) && Reaches(steps', s')
  {
    s' := Apply(s, step);
    steps' := steps + [step];
    assert Front(steps') == steps && Last(steps') == step;
    assert Takes(s, step, s');
  }

  /** And after a failed one it can: the refresh's own reconnector and the one that the next `Send` starts
      overlap; the first connects and clears the flag, the sender sees a connection, and the second one's
      failed dial takes it away again. */
  lemma OverlapDropsConnection() returns (steps: seq<Step>, s: State)
    ensures Reaches(steps, s) && s.sender == NilConnection && s.refreshFailed
  {
    hide Reaches;
    steps, s := FailedRefresh();
    steps, s := Extend(steps, s, CheckReconnecting);
    steps, s := Extend(steps, s, TestConn);
    steps, s := Extend(steps, s, StartReconnect);
    assert s.workers == [Dialing, Dialing] && s.reconnecting;
    steps, s := Extend(steps, s, WorkerDials(0, DialOk));
    steps, s := Extend(steps, s, WorkerClears(0));
    assert s.workers == [Returned, Dialing] && s.conn && !s.reconnecting;
    steps, s := Extend(steps, s, CheckReconnecting);
    steps, s := Extend(steps, s, TestConn);
    steps, s := Extend(steps, s, WorkerDials(1, DialFails));
    steps, s := Extend(steps, s, Deadline);
  }

  /** The hundredth send refreshes the connection, and the dial fails. */
  lemma FailedRefresh() returns (steps: seq<Step>, s: State)
    ensures Reaches(steps, s)
    ensures s == State(false, false, false, MAX_KEEP_ALIVE_SENT_COUNT, Idle, [Dialing], true)
  {
    hide Reaches;
    steps, s := SendMany(MAX_KEEP_ALIVE_SENT_COUNT - 1);
    steps, s := Extend(steps, s, TestConn);
    steps, s := Extend(steps, s, Deadline);
    steps, s := Extend(steps, s, Write(true));
    assert s.sender == RefreshClose;
    steps, s := Extend(steps, s, CloseForRefresh);
    steps, s := Extend(steps, s, DialForRefresh(DialFails));
    assert s.workers == [Dialing];
  }

  /** After `k` sends that all went well, about to send again. */
  lemma {:induction false} SendMany(k: nat) returns (steps: seq<Step>, s: State)
    requires k < MAX_KEEP_ALIVE_SENT_COUNT
    ensures Reaches(steps, s) && s == State(true, false, false, k, SendStart, [], false)
  {
    if k == 0 {
      steps, s := [], State(true, false, false, 0, SendStart, [], false);
    } else {
      hide Reaches, Apply;
      steps, s := SendMany(k - 1);
      steps, s := GoodSend(steps, s);
    }
  }

  lemma GoodSend(steps: seq<Step>, s: State) returns (steps': seq<Step>, s': State)
    requires Reaches(steps, s) && s.sender == SendStart && s.conn && !s.reconnecting
    requires s.sent + 1 < MAX_KEEP_ALIVE_SENT_COUNT
    ensures Reaches(steps', s') && s' == s.(sent := s.sent + 1)
  {
    hide Reaches;
    steps', s' := Extend(steps, s, TestConn);
    steps', s' := Extend(steps', s', Deadline);
    assert (s.sent + 1) % MAX_KEEP_ALIVE_SENT_COUNT == s.sent + 1;
    steps', s' := Extend(steps', s', Write(true));
    steps', s' := Extend(steps', s', CheckReconnecting);
  }

  // ---- what sending does to the connection ---------------------------------------------

  function Writes(steps: seq<Step>): nat {
    if steps == [] then 0 else Writes(Front(steps)) + if Last(steps).Write? then 1 else 0
  }

  /** `Sent` counts every write, the failed ones too. */
  lemma {:induction false} SentCountsWrites(steps: seq<Step>, s: State)
    requires Reaches(steps, s)
    ensures s.sender != NilConnection ==> s.sent == Writes(steps)
  {
    if steps != [] {
      var before :| Reaches(Front(steps), before) && Takes(before, Last(steps), s);
      SentCountsWrites(Front(steps), before);
      hide Reaches, Apply, Enabled;
      SentStep(before, Last(steps));
    }
  }

  lemma SentStep(s: State, step: Step)
    requires Enabled(s, step)
    ensures var s' := Apply(s, step);
            && (s.sender == NilConnection || (step.Write? && !s.conn) ==> s'.sender == NilConnection)
            && s'.sent == s.sent + if step.Write? && s.conn then 1 else 0
  {
  }

  /** A write that succeeds is followed by a refresh exactly when it is the hundredth, two hundredth, and so
      on, of the run; one that fails leaves no connection, and never is. */
  lemma RefreshedIff(steps: seq<Step>, s: State, ok: bool, s': State)
    requires Reaches(steps, s) && Takes(s, Write(ok), s') && s.conn
    ensures s'.sender == RefreshClose <==> ok && Writes(steps + [Write(ok)]) % 100 == 0
    ensures s'.sender == RefreshClose || s'.sender == Idle
    ensures s'.conn == ok
  {
    SentCountsWrites(steps, s);
    assert Front(steps + [Write(ok)]) == steps;
  }

  /** A refresh drops the connection and dials once: it ends with a connection exactly when the dial
      succeeded, and with one more reconnector exactly when it reported an error. */
  lemma RefreshReplaces(s: State, closed: State, outcome: Dial, s': State)
    requires Takes(s, CloseForRefresh, closed) && Takes(closed, DialForRefresh(outcome), s')
    ensures !closed.conn && s'.sender == Idle && s'.reconnecting == s.reconnecting
    ensures s'.conn <==> outcome == DialOk
    ensures s'.workers == s.workers + if outcome == DialFails || outcome == LookupFails then [Dialing] else []
  {
  }

  /** A reconnector's dial ends its work exactly when it reported no error; only one that reached the network
      changes the connection. */
  lemma DialOutcomes(s: State, i: nat, outcome: Dial, s': State)
    requires Takes(s, WorkerDials(i, outcome), s')
    ensures s'.workers[i] == Clearing <==> outcome == DialOk || outcome == LookupEmpty
    ensures s'.workers[i] == Waiting <==> outcome == DialFails || outcome == LookupFails
    ensures s'.conn == if outcome == DialOk then true else if outcome == DialFails then false else s.conn
    ensures s'.reconnecting == s.reconnecting
  {
  }

  /** A send without a connection starts one reconnector if the flag is clear, and sets it; it never writes. */
  lemma SendWithoutConnection(s: State, start: State, locked: State, s': State)
    requires !s.conn && Takes(s, CheckReconnecting, start) && start.sender == SendStart
    requires Takes(start, TestConn, locked) && Takes(locked, StartReconnect, s')
    ensures s' == s.(reconnecting := true, workers := s.workers + [Dialing])
  {
  }

  // ---- the shutdown ----------------------------------------------------------------------

  /** The steps can be taken from `s`, no reconnector's dial succeeds in them, and reconnector `i` returns. */
  predicate EndsIn(s: State, steps: seq<Step>, i: nat)
    decreases |steps|
  {
    if steps == [] then i < |s.workers| && s.workers[i] == Returned
    else
      && Enabled(s, steps[0])
      && !(steps[0].WorkerDials? && (steps[0].outcome == DialOk || steps[0].outcome == LookupEmpty))
      && EndsIn(Apply(s, steps[0]), steps[1..], i)
  }

  lemma {:induction false} CanceledWhenStopped(steps: seq<Step>, s: State)
    requires Reaches(steps, s)
    ensures s.canceled ==> s.sender == Stopped
  {
    if steps != [] {
      var before :| Reaches(Front(steps), before) && Takes(before, Last(steps), s);
      CanceledWhenStopped(Front(steps), before);
      hide Reaches, Apply, Enabled;
      CancelStep(before, Last(steps));
    }
  }

  lemma CancelStep(s: State, step: Step)
    requires Enabled(s, step)
    ensures s.sender == Stopped ==> Apply(s, step).sender == Stopped
    ensures Apply(s, step).canceled && !s.canceled ==> Apply(s, step).sender == Stopped
  {
  }

  lemma {:induction false} NeverEnds(s: State, steps: seq<Step>, i: nat)
    requires s.sender == Stopped && !s.canceled && i < |s.workers|
    requires s.workers[i] == Dialing || s.workers[i] == Waiting
    ensures !EndsIn(s, steps, i)
    decreases |steps|
  {
    if EndsIn(s, steps, i) && steps != [] {
      NeverEnds(Apply(s, steps[0]), steps[1..], i);
    }
  }

  /** After `Shutdown` a reconnector that has not connected yet can end without connecting if and only if the
      flag was set at that moment; one that runs with the flag clear goes on dialing until it connects. */
  lemma ShutdownEndsIff(steps: seq<Step>, s: State, s': State, i: nat)
    requires Reaches(steps, s) && Takes(s, Shutdown, s') && i < |s.workers|
    requires s.workers[i] == Dialing || s.workers[i] == Waiting
    ensures (exists more :: EndsIn(s', more, i)) <==> s.reconnecting
  {
    CanceledWhenStopped(steps, s);
    if s.reconnecting {
      CanEnd(s', i);
    } else {
      forall more
        ensures !EndsIn(s', more, i)
      {
        NeverEnds(s', more, i);
      }
    }
  }

  lemma CanEnd(s: State, i: nat)
    requires s.canceled && i < |s.workers| && (s.workers[i] == Dialing || s.workers[i] == Waiting)
    ensures exists more :: EndsIn(s, more, i)
  {
    if s.workers[i] == Dialing {
      var waiting := Apply(s, WorkerDials(i, DialFails));
      CanceledEnds(waiting, i);
      var more := [WorkerDials(i, DialFails), WorkerCanceled(i), WorkerClears(i)];
      assert more[1..] == [WorkerCanceled(i), WorkerClears(i)];
      assert EndsIn(s, more, i);
    } else {
      CanceledEnds(s, i);
    }
  }

  lemma CanceledEnds(s: State, i: nat)
    requires s.canceled && i < |s.workers| && s.workers[i] == Waiting
    ensures EndsIn(s, [WorkerCanceled(i), WorkerClears(i)], i)
  {
    assert [WorkerCanceled(i), WorkerClears(i)][1..] == [WorkerClears(i)];
    assert [WorkerClears(i)][1..] == [];
    var cleared := Apply(Apply(s, WorkerCanceled(i)), WorkerClears(i));
    assert EndsIn(cleared, [], i);
    assert EndsIn(Apply(s, WorkerCanceled(i)), [WorkerClears(i)], i);
  }
}
