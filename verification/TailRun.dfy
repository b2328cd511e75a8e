/** Following one log file by path while the environment appends to it, renames it away,
    recreates it and possibly truncates it: `InTail.Run`, `newTrailFile`, `watchFileEvent`,
    `restrict` and `tailAndSend` as one transition system. */
module TailRun {
  import opened Prelude
  import opened Lines

  /** What the directory watcher reports; `Gone` stands for a rename or a remove. */
  datatype Event = Write | Gone | Created

  /** Every file that ever had the path, the one that has it now, and the undelivered events. */
  datatype Disk = Disk(files: seq<bytes>, path: Option<nat>, events: seq<Event>, truncated: set<nat>)

  /** An open `File`: the descriptor's own offset beside the `Position` field, the carry,
      and two histories, the bytes read and the blocks emitted since it was opened. */
  datatype Handle = Handle(file: nat, start: nat, offset: nat, position: nat, cont: bytes,
                           read: bytes, blocks: seq<bytes>)

  datatype Phase =
    | Opening(seekTail: bool)
    | Watching(h: Handle)
    | Checking(h: Handle)
    | Reading(h: Handle, final: bool)
    | Exited

  /** A handle no longer in use, with the file's contents and state at that moment. */
  datatype Closed = Closed(h: Handle, drained: bool, clean: bool, contents: bytes)

  datatype State = State(disk: Disk, bufferSize: nat, phase: Phase, closed: seq<Closed>, sent: seq<bytes>)

  datatype Step =
    | Append(file: nat, data: bytes)
    | Truncate(file: nat, size: nat)
    | RenameAway
    | Recreate
    | MoveIn(data: bytes)
    | MoveBack(was: nat)
    | OpenFails
    | Open
    | TakeEvent
    | TakeTimer
    | Check(throttled: bool)
    | StatFails
    | Read(n: nat)
    | ReadEOF
    | ReadFails
    | Shutdown

  /** Steps that the environment takes, and those of the tailer itself. */
  predicate ByEnvironment(step: Step) {
    step.Append? || step.Truncate? || step.RenameAway? || step.Recreate?
    || step.MoveIn? || step.MoveBack?
  }

  predicate Init(s: State) {
    && s.disk.events == [] && s.disk.truncated == {}
    && (s.disk.path.Some? ==> s.disk.path.value < |s.disk.files|)
    && s.bufferSize > 0
    && s.phase == Opening(true) && s.closed == [] && s.sent == []
  }

  predicate Enabled(s: State, step: Step) {
    match step
    case Append(file, _) => file < |s.disk.files|
    case Truncate(file, size) => file < |s.disk.files| && size <= |s.disk.files[file]|
    case RenameAway => s.disk.path.Some?
    case Recreate => s.disk.path.None?
    case MoveIn(_) => true
    case MoveBack(was) => was < |s.disk.files| && s.disk.path != Some(was)
    case OpenFails => s.phase.Opening?
    case Open => s.phase.Opening? && s.disk.path.Some? && s.disk.path.value < |s.disk.files|
    case TakeEvent => s.phase.Watching? && s.disk.events != []
    case TakeTimer => s.phase.Watching?
    case Check(_) => s.phase.Checking? && s.phase.h.file < |s.disk.files|
    case StatFails => s.phase.Checking? && s.phase.h.file < |s.disk.files|
    case Read(n) =>
      && s.phase.Reading? && s.phase.h.file < |s.disk.files|
      && 0 < n <= s.bufferSize && s.phase.h.offset + n <= |s.disk.files[s.phase.h.file]|
    case ReadEOF =>
      s.phase.Reading? && s.phase.h.file < |s.disk.files| && s.phase.h.offset >= |s.disk.files[s.phase.h.file]|
    case ReadFails => s.phase.Reading? && s.phase.h.file < |s.disk.files|
    case Shutdown =>
      s.phase.Opening? || (s.phase.Watching? && s.phase.h.file < |s.disk.files|)
  }

  function Apply(s: State, step: Step): State
    requires Enabled(s, step)
  {
    match step
    // the environment
    case Append(file, data) =>
      s.(disk := s.disk.(files := s.disk.files[file := s.disk.files[file] + data],
                         events := s.disk.events + if s.disk.path == Some(file) then [Write] else []))
    case Truncate(file, size) =>
      s.(disk := s.disk.(files := s.disk.files[file := s.disk.files[file][..size]],
                         truncated := s.disk.truncated + {file}))
    case RenameAway =>
      s.(disk := s.disk.(path := None, events := s.disk.events + [Gone]))
    case Recreate =>
      s.(disk := s.disk.(files := s.disk.files + [[]], path := Some(|s.disk.files|),
                         events := s.disk.events + [Created]))
    case MoveIn(data) =>  // a file of any other name is renamed onto the path
      s.(disk := s.disk.(files := s.disk.files + [data], path := Some(|s.disk.files|),
                         events := s.disk.events + [Created]))
    case MoveBack(was) =>  // one that had the path before, perhaps over the one that has it now
      s.(disk := s.disk.(path := Some(was), events := s.disk.events + [Created]))
    // newTrailFile: only the very first attempt seeks to the end
    case OpenFails => s.(phase := Opening(false))
    case Open =>
      var file := s.disk.path.value;
      var start := if s.phase.seekTail then |s.disk.files[file]| else 0;
      s.(phase := Watching(Handle(file, start, start, start, [], [], [])))
    // watchFileEvent
    case TakeEvent =>
      var rest := s.(disk := s.disk.(events := s.disk.events[1..]));
      (match s.disk.events[0]
       case Write => rest.(phase := Checking(s.phase.h))
       case Gone => rest.(phase := Reading(s.phase.h, true))
       case Created => rest)
    case TakeTimer => s.(phase := Checking(s.phase.h))
    case Check(throttled) =>
      var h := s.phase.h;
      var h' := if |s.disk.files[h.file]| < h.position then h.(offset := 0, position := 0) else h;
      s.(phase := if throttled then Watching(h') else Reading(h', false))
    case StatFails => Abandon(s, s.phase.h, false, Opening(false))
    // tailAndSend
    case Read(n) =>
      var h := s.phase.h;
      var chunk := s.disk.files[h.file][h.offset..h.offset + n];
      var c := Consume(h.cont, chunk);
      var out := if c.block.Some? then [c.block.value] else [];
      s.(phase := s.phase.(h := h.(offset := h.offset + n, position := h.position + n, cont := c.cont,
                                   read := h.read + chunk, blocks := h.blocks + out)),
         sent := s.sent + out)
    case ReadEOF =>
      if s.phase.final then Abandon(s, s.phase.h, true, Opening(false)) else s.(phase := Watching(s.phase.h))
    case ReadFails => Abandon(s, s.phase.h, false, Opening(false))
    case Shutdown =>
      if s.phase.Watching? then Abandon(s, s.phase.h, false, Exited) else s.(phase := Exited)
  }

  function Abandon(s: State, h: Handle, drained: bool, phase: Phase): State
    requires h.file < |s.disk.files|
  {
    s.(phase := phase,
       closed := s.closed + [Closed(h, drained, h.file !in s.disk.truncated, s.disk.files[h.file])])
  }

  /** `s` is reached from an initial state by the given steps. */
  ghost predicate Reaches(steps: seq<Step>, s: State) {
    if steps == [] then Init(s)
    else exists before :: Reaches(Front(steps), before) && Takes(before, Last(steps), s)
  }

  predicate Takes(s: State, step: Step, s': State) {
    Enabled(s, step) && s' == Apply(s, step)
  }

  // ---- what every reachable state satisfies --------------------------------

  /** Histories and carry agree; Position is the descriptor's offset; and without truncation the
      bytes read are the file's own, from where it was opened, once and in order. */
  predicate HandleOk(disk: Disk, h: Handle) {
    && h.file < |disk.files| && h.position == h.offset
    && h.cont == Fragment(h.read) && BlocksLines(h.blocks) == CompleteLines(h.read)
    && (h.file !in disk.truncated ==>
          && h.offset == h.start + |h.read| && h.offset <= |disk.files[h.file]|
          && h.read == disk.files[h.file][h.start..h.offset])
  }

  /** The same for a closed handle, against the contents the file had when it was closed. After a
      rename or remove that was drained, every complete line is out: only the fragment is lost. */
  predicate ClosedOk(c: Closed) {
    && c.h.position == c.h.offset
    && c.h.cont == Fragment(c.h.read) && BlocksLines(c.h.blocks) == CompleteLines(c.h.read)
    && (c.clean ==>
          && c.h.start + |c.h.read| <= |c.contents|
          && c.h.read == c.contents[c.h.start..c.h.start + |c.h.read|])
    && (c.clean && c.drained ==>
          && c.h.read == c.contents[c.h.start..]
          && BlocksLines(c.h.blocks) == CompleteLines(c.contents[c.h.start..]))
  }

  predicate HasHandle(s: State) {
    s.phase.Watching? || s.phase.Checking? || s.phase.Reading?
  }

  /** The handles opened so far, oldest first. */
  function Openings(s: State): seq<Handle> {
    seq(|s.closed|, i requires 0 <= i < |s.closed| => s.closed[i].h) + if HasHandle(s) then [s.phase.h] else []
  }

  /** The complete lines of the bytes read, opening by opening. */
  function LinesRead(hs: seq<Handle>): seq<bytes> {
    if hs == [] then [] else LinesRead(Front(hs)) + CompleteLines(Last(hs).read)
  }

  predicate Inv(s: State) {
    && s.bufferSize > 0
    && (s.disk.path.Some? ==> s.disk.path.value < |s.disk.files|)
    && (HasHandle(s) ==> HandleOk(s.disk, s.phase.h))
    && (forall i :: 0 <= i < |s.closed| ==> ClosedOk(s.closed[i]))
    && (s.phase.Opening? && s.phase.seekTail ==> s.closed == [])
    && (forall i :: 1 <= i < |Openings(s)| ==> Openings(s)[i].start == 0)
    && BlocksLines(s.sent) == LinesRead(Openings(s))
  }

  lemma OpenHandleKept(disk: Disk, h: Handle, disk': Disk)
    requires HandleOk(disk, h)
    requires |disk.files| <= |disk'.files| && disk.truncated <= disk'.truncated
    requires h.file in disk'.truncated || disk.files[h.file] <= disk'.files[h.file]
    ensures HandleOk(disk', h)
  {
  }

  lemma EnvironmentKeeps(s: State, step: Step)
    requires Inv(s) && Enabled(s, step)
    requires ByEnvironment(step)
    ensures Inv(Apply(s, step))
  {
    hide BlocksLines, LinesRead, CompleteLines, Fragment, Split;
    var s' := Apply(s, step);
    assert Openings(s') == Openings(s);
    if HasHandle(s) {
      OpenHandleKept(s.disk, s.phase.h, s'.disk);
    }
  }

  lemma BlocksLinesOf(block: Option<bytes>, out: seq<bytes>)
    requires out == if block.Some? then [block.value] else []
    ensures BlocksLines(out) == BlockLines(block)
  {
    if block.Some? {
      assert BlocksLines([block.value]) == Split(block.value, LF) + BlocksLines([]);
    }
  }

  /** What a read does to the handle, its histories and the blocks it adds. */
  lemma ReadHandle(disk: Disk, h: Handle, n: nat, c: Consumed, h': Handle, out: seq<bytes>)
    requires HandleOk(disk, h) && n > 0 && h.offset + n <= |disk.files[h.file]|
    requires c == Consume(h.cont, disk.files[h.file][h.offset..h.offset + n])
    requires out == if c.block.Some? then [c.block.value] else []
    requires h' == h.(offset := h.offset + n, position := h.position + n, cont := c.cont,
                      read := h.read + disk.files[h.file][h.offset..h.offset + n], blocks := h.blocks + out)
    ensures HandleOk(disk, h')
    ensures CompleteLines(h'.read) == CompleteLines(h.read) + BlocksLines(out)
  {
    hide BlocksLines, CompleteLines, Fragment, Split, Consume, BlockLines;
    ConsumeResumes(h.read, disk.files[h.file][h.offset..h.offset + n]);
    BlocksLinesOf(c.block, out);
    BlocksLinesConcat(h.blocks, out);
    if h.file !in disk.truncated {
      var f := disk.files[h.file];
      assert f[h.start..h.offset] + f[h.offset..h.offset + n] == f[h.start..h.offset + n];
    }
  }

  lemma LinesReadLast(hs: seq<Handle>, h: Handle)
    ensures LinesRead(hs + [h]) == LinesRead(hs) + CompleteLines(h.read)
  {
    assert Front(hs + [h]) == hs;
  }

  function ClosedHandles(s: State): seq<Handle> {
    seq(|s.closed|, i requires 0 <= i < |s.closed| => s.closed[i].h)
  }

  /** Replacing the open handle keeps the invariant when its histories account for what was sent. */
  lemma HandleReplaced(s: State, s': State)
    requires Inv(s) && HasHandle(s) && HasHandle(s') && HandleOk(s.disk, s'.phase.h)
    requires s'.disk == s.disk && s'.closed == s.closed && s'.bufferSize == s.bufferSize
    requires s'.phase.h.start == s.phase.h.start
    requires BlocksLines(s'.sent) == LinesRead(ClosedHandles(s)) + CompleteLines(s'.phase.h.read)
    ensures Inv(s')
  {
    hide BlocksLines, CompleteLines, Fragment, Split, LinesRead, HandleOk, ClosedOk;
    LinesReadLast(ClosedHandles(s), s'.phase.h);
    assert Openings(s') == ClosedHandles(s) + [s'.phase.h];
    forall i | 1 <= i < |Openings(s')|
      ensures Openings(s')[i].start == 0
    {
      assert Openings(s')[i].start == Openings(s)[i].start;
    }
  }

  lemma ReadKeeps(s: State, n: nat)
    requires Inv(s) && Enabled(s, Read(n))
    ensures Inv(Apply(s, Read(n)))
  {
    hide BlocksLines, CompleteLines, Fragment, Split, Consume, LinesRead, ClosedOk;
    var h := s.phase.h;
    var c := Consume(h.cont, s.disk.files[h.file][h.offset..h.offset + n]);
    var out := if c.block.Some? then [c.block.value] else [];
    var s' := Apply(s, Read(n));
    ReadHandle(s.disk, h, n, c, s'.phase.h, out);
    BlocksLinesConcat(s.sent, out);
    LinesReadLast(ClosedHandles(s), h);
    assert Openings(s) == ClosedHandles(s) + [h];
    HandleReplaced(s, s');
  }

  lemma NothingRead()
    ensures Fragment([]) == [] && CompleteLines([]) == [] && BlocksLines([]) == []
  {
  }

  lemma OpenKeeps(s: State)
    requires Inv(s) && Enabled(s, Open)
    ensures Inv(Apply(s, Open))
  {
    hide BlocksLines, CompleteLines, Fragment, Split, LinesRead, ClosedOk;
    var s' := Apply(s, Open);
    NothingRead();
    LinesReadLast(ClosedHandles(s), s'.phase.h);
    assert Openings(s) == ClosedHandles(s) && Openings(s') == ClosedHandles(s) + [s'.phase.h];
  }

  lemma CheckKeeps(s: State, throttled: bool)
    requires Inv(s) && Enabled(s, Check(throttled))
    ensures Inv(Apply(s, Check(throttled)))
  {
    hide BlocksLines, CompleteLines, Fragment, Split, LinesRead, ClosedOk;
    LinesReadLast(ClosedHandles(s), s.phase.h);
    assert Openings(s) == ClosedHandles(s) + [s.phase.h];
    HandleReplaced(s, Apply(s, Check(throttled)));
  }

  lemma AbandonKeeps(s: State, drained: bool, phase: Phase)
    requires Inv(s) && HasHandle(s)
    requires phase == Opening(false) || phase == Exited
    requires drained ==> s.phase.h.offset >= |s.disk.files[s.phase.h.file]|
    ensures Inv(Abandon(s, s.phase.h, drained, phase))
  {
    hide BlocksLines, CompleteLines, Fragment, Split, LinesRead;
    var s' := Abandon(s, s.phase.h, drained, phase);
    assert Openings(s') == Openings(s);
    var h, f := s.phase.h, s.disk.files[s.phase.h.file];
    if h.file !in s.disk.truncated && drained {
      assert f[h.start..h.offset] == f[h.start..];
    }
  }

  lemma OtherStepKeeps(s: State, step: Step)
    requires Inv(s) && Enabled(s, step)
    requires step.OpenFails? || step.TakeEvent? || step.TakeTimer? || step.StatFails? || step.ReadEOF?
          || step.ReadFails? || step.Shutdown?
    ensures Inv(Apply(s, step))
  {
    hide BlocksLines, CompleteLines, Fragment, Split, LinesRead, ClosedOk, HandleOk;
    var s' := Apply(s, step);
    if HasHandle(s) && !HasHandle(s') {
      AbandonKeeps(s, step.ReadEOF?, s'.phase);
    } else {
      if HasHandle(s) {
        OpenHandleKept(s.disk, s.phase.h, s'.disk);
      }
      assert Openings(s') == Openings(s);
    }
  }

  lemma StepKeeps(s: State, step: Step)
    requires Inv(s) && Enabled(s, step)
    ensures Inv(Apply(s, step))
  {
    hide Inv, Apply, Enabled;
    match step
    case Read(n) => ReadKeeps(s, n);
    case Open => OpenKeeps(s);
    case Check(throttled) => CheckKeeps(s, throttled);
    case Append(_, _) => EnvironmentKeeps(s, step);
    case Truncate(_, _) => EnvironmentKeeps(s, step);
    case RenameAway => EnvironmentKeeps(s, step);
    case Recreate => EnvironmentKeeps(s, step);
    case MoveIn(_) => EnvironmentKeeps(s, step);
    case MoveBack(_) => EnvironmentKeeps(s, step);
    case _ => OtherStepKeeps(s, step);
  }

  /** Every reachable state, whatever the environment did. */
  lemma {:induction false} EveryRun(steps: seq<Step>, s: State)
    requires Reaches(steps, s)
    ensures Inv(s)
  {
    if steps != [] {
      var before :| Reaches(Front(steps), before) && Takes(before, Last(steps), s);
      EveryRun(Front(steps), before);
      StepKeeps(before, Last(steps));
    }
  }

  // ---- what a run delivers --------------------------------------------------

  /** A rotation that drained the old file delivers it whole, but for its unterminated last line. */
  lemma RotationLosesOnlyTheFragment(steps: seq<Step>, s: State, i: nat)
    requires Reaches(steps, s) && i < |s.closed| && s.closed[i].drained && s.closed[i].clean
    ensures var c := s.closed[i];
            && c.h.start <= |c.contents| && c.contents[c.h.start..] == Unlines(BlocksLines(c.h.blocks)) + c.h.cont
            && AllFree(BlocksLines(c.h.blocks), LF) && Free(c.h.cont, LF)
  {
    EveryRun(steps, s);
    LinesCut(s.closed[i].h.read);
  }

  /** After a rewind the bytes read next give their own lines exactly when no carry was kept or no
      line of theirs is completed; otherwise the first line has the stale carry in front. */
  lemma RewindKeepsStaleCarry(steps: seq<Step>, s: State, more: bytes)
    requires Reaches(steps, s) && Enabled(s, Check(false))
    requires s.phase.h.position > |s.disk.files[s.phase.h.file]|
    ensures var h := Apply(s, Check(false)).phase.h;
            && h.offset == 0 == h.position && h.cont == s.phase.h.cont
            && (CompleteLines(h.read + more) == CompleteLines(h.read) + CompleteLines(more)
                <==> h.cont == [] || Free(more, LF))
  {
    EveryRun(steps, s);
    var h := Apply(s, Check(false)).phase.h;
    LinesCut(h.read);
    hide CompleteLines, Fragment;
    ResumeLines(h.read, more);
    StaleFragment(h.cont, more);
    var done := CompleteLines(h.read);
    if CompleteLines(h.read + more) == done + CompleteLines(more) {
      assert (done + CompleteLines(h.cont + more))[|done|..] == (done + CompleteLines(more))[|done|..];
    }
  }

  // ---- where the first opening starts -----------------------------------------

  /** A run with all its states: before the first step, between the steps, and after the last one. */
  predicate Ran(steps: seq<Step>, states: seq<State>) {
    && |states| == |steps| + 1 && Init(states[0])
    && forall k :: 0 <= k < |steps| ==> Takes(states[k], steps[k], states[k + 1])
  }

  lemma {:induction false} RanReaches(steps: seq<Step>, states: seq<State>)
    requires Ran(steps, states)
    ensures Reaches(steps, Last(states))
  {
    if steps != [] {
      hide Init, Takes;
      var before, front := Front(steps), Front(states);
      forall k | 0 <= k < |before|
        ensures Takes(front[k], before[k], front[k + 1])
      {
        assert Takes(states[k], steps[k], states[k + 1]);
      }
      RanReaches(before, front);
      assert Takes(Last(front), Last(steps), Last(states));
    }
  }

  /** Every reachable state is the last one of such a run. */
  lemma {:induction false} ReachesRan(steps: seq<Step>, s: State) returns (states: seq<State>)
    requires Reaches(steps, s)
    ensures Ran(steps, states) && Last(states) == s
  {
    if steps == [] {
      states := [s];
    } else {
      var before :| Reaches(Front(steps), before) && Takes(before, Last(steps), s);
      var front := ReachesRan(Front(steps), before);
      states := front + [s];
      hide Reaches, Init, Takes;
      assert Front(states) == front;
      forall k | 0 <= k < |steps|
        ensures Takes(states[k], steps[k], states[k + 1])
      {
        assert k < |Front(steps)| ==> Takes(front[k], Front(steps)[k], front[k + 1]);
      }
    }
  }

  /** The first step that opens the file, if any does. */
  function FirstOpen(steps: seq<Step>): (k: nat)
    ensures k <= |steps| && Open !in steps[..k] && (k < |steps| ==> steps[k] == Open)
  {
    if steps == [] || steps[0] == Open then 0 else 1 + FirstOpen(steps[1..])
  }

  lemma {:induction false} BeforeOpening(steps: seq<Step>, states: seq<State>, k: nat)
    requires Ran(steps, states) && k <= FirstOpen(steps)
    ensures Openings(states[k]) == [] && states[k].closed == []
    ensures states[k].phase.Opening? ==> (states[k].phase.seekTail <==> OpenFails !in steps[..k])
  {
    if k > 0 {
      BeforeOpening(steps, states, k - 1);
      assert Takes(states[k - 1], steps[k - 1], states[k]);
      assert steps[..k] == steps[..k - 1] + [steps[k - 1]];
      hide Apply, Enabled, Init, Openings;
      NotYetOpened(states[k - 1], steps[k - 1]);
    } else {
      assert Openings(states[0]) == [];
    }
  }

  lemma NotYetOpened(s: State, step: Step)
    requires Enabled(s, step) && step != Open && Openings(s) == [] && s.closed == []
    ensures var s' := Apply(s, step);
            && Openings(s') == [] && s'.closed == []
            && (s'.phase.Opening? ==>
                  s.phase.Opening? && (s'.phase.seekTail <==> s.phase.seekTail && step != OpenFails))
  {
    hide Consume;
  }

  lemma FirstKept(s: State, step: Step)
    requires Openings(s) != [] && Enabled(s, step)
    ensures Openings(Apply(s, step)) != []
    ensures Openings(Apply(s, step))[0].start == Openings(s)[0].start
    ensures Openings(Apply(s, step))[0].file == Openings(s)[0].file
  {
    hide Consume;
  }

  lemma {:induction false} FirstStays(steps: seq<Step>, states: seq<State>, a: nat, b: nat)
    requires Ran(steps, states) && a <= b <= |steps| && Openings(states[a]) != []
    ensures Openings(states[b]) != []
    ensures Openings(states[b])[0].start == Openings(states[a])[0].start
    ensures Openings(states[b])[0].file == Openings(states[a])[0].file
    decreases b
  {
    if a < b {
      FirstStays(steps, states, a, b - 1);
      hide Openings;
      assert Takes(states[b - 1], steps[b - 1], states[b]);
      FirstKept(states[b - 1], steps[b - 1]);
    }
  }

  /** The first opening starts at the size that its file has at that step, if no open failed before it, and
      at 0 if one did; and there are no openings before that step. */
  lemma FirstOpeningStarts(steps: seq<Step>, states: seq<State>)
    requires Ran(steps, states)
    ensures FirstOpen(steps) == |steps| <==> Openings(Last(states)) == []
    ensures FirstOpen(steps) < |steps| ==>
              var k := FirstOpen(steps);
              var disk, first := states[k].disk, Openings(Last(states))[0];
              && disk.path == Some(first.file) && first.file < |disk.files|
              && first.start == if OpenFails in steps[..k] then 0 else |disk.files[first.file]|
  {
    var k := FirstOpen(steps);
    BeforeOpening(steps, states, k);
    if k < |steps| {
      assert Takes(states[k], Open, states[k + 1]);
      Opens(states[k]);
      hide Openings;
      FirstStays(steps, states, k + 1, |steps|);
    }
  }

  lemma Opens(s: State)
    requires Enabled(s, Open) && Openings(s) == []
    ensures var s' := Apply(s, Open);
            && |Openings(s')| == 1 && s.disk.path == Some(Openings(s')[0].file)
            && Openings(s')[0].file < |s.disk.files|
            && Openings(s')[0].start == if s.phase.seekTail then |s.disk.files[Openings(s')[0].file]| else 0
  {
  }

  /** Files that are not truncated only grow, after they were closed too. */
  predicate ClosedGrow(s: State) {
    forall i :: 0 <= i < |s.closed| && s.closed[i].h.file !in s.disk.truncated ==>
      && s.closed[i].clean && s.closed[i].h.file < |s.disk.files|
      && s.closed[i].contents <= s.disk.files[s.closed[i].h.file]
  }

  lemma FilesGrow(s: State, step: Step, file: nat)
    requires Enabled(s, step) && file < |s.disk.files|
    ensures var s' := Apply(s, step);
            && |s.disk.files| <= |s'.disk.files| && s.disk.truncated <= s'.disk.truncated
            && (file !in s'.disk.truncated ==> s.disk.files[file] <= s'.disk.files[file])
  {
    hide Consume;
  }

  lemma ClosedGrowKept(s: State, step: Step)
    requires ClosedGrow(s) && Enabled(s, step) && (HasHandle(s) ==> s.phase.h.file < |s.disk.files|)
    ensures ClosedGrow(Apply(s, step))
  {
    var s' := Apply(s, step);
    ClosedStep(s, step);
    hide Apply, Enabled;
    forall i | 0 <= i < |s'.closed| && s'.closed[i].h.file !in s'.disk.truncated
      ensures s'.closed[i].clean && s'.closed[i].h.file < |s'.disk.files|
      ensures s'.closed[i].contents <= s'.disk.files[s'.closed[i].h.file]
    {
      FilesGrow(s, step, s'.closed[i].h.file);
    }
  }

  /** What closes a handle, and how: a rename or remove that was drained, a failed stat or read, or the
      shutdown; the file's contents at that moment go on record. */
  lemma ClosedStep(s: State, step: Step)
    requires Enabled(s, step)
    ensures var s' := Apply(s, step);
            && (s'.closed != s.closed <==>
                  HasHandle(s) && (step == StatFails || step == ReadFails || step == Shutdown
                                   || (step == ReadEOF && s.phase.final)))
            && (s'.closed == s.closed
                || (HasHandle(s) && s.phase.h.file < |s.disk.files| && s'.disk.files == s.disk.files
                    && s'.disk.truncated == s.disk.truncated && !HasHandle(s')
                    && (s'.phase == Exited <==> step == Shutdown) && (s'.phase == Opening(false) <==> step != Shutdown)
                    && s'.closed == s.closed + [Closed(s.phase.h, step == ReadEOF, s.phase.h.file !in s.disk.truncated,
                                                       s.disk.files[s.phase.h.file])]))
  {
    hide Consume;
  }

  lemma {:induction false} EveryClosedGrows(steps: seq<Step>, s: State)
    requires Reaches(steps, s)
    ensures ClosedGrow(s)
  {
    if steps != [] {
      var before :| Reaches(Front(steps), before) && Takes(before, Last(steps), s);
      EveryClosedGrows(Front(steps), before);
      if HasHandle(before) {
        HeldFile(Front(steps), before);
      }
      hide Reaches, ClosedGrow, Apply, Enabled;
      ClosedGrowKept(before, Last(steps));
    }
  }

  lemma {:induction false} GrowsFrom(steps: seq<Step>, states: seq<State>, a: nat, b: nat, file: nat)
    requires Ran(steps, states) && a <= b <= |steps| && file < |states[a].disk.files|
    ensures |states[a].disk.files| <= |states[b].disk.files|
    ensures states[a].disk.truncated <= states[b].disk.truncated
    ensures file !in states[b].disk.truncated ==> states[a].disk.files[file] <= states[b].disk.files[file]
    decreases b
  {
    if a < b {
      GrowsFrom(steps, states, a, b - 1, file);
      assert Takes(states[b - 1], steps[b - 1], states[b]);
      hide Apply, Enabled;
      FilesGrow(states[b - 1], steps[b - 1], file);
    }
  }

  /** `read` begins right behind what the file once held. */
  predicate ReadsOnFrom(read: bytes, held: bytes, now: bytes) {
    held <= now && |held| + |read| <= |now| && read == now[|held|..|held| + |read|]
  }

  /** So what the file held when the agent first opened it is not sent: with no failed open before, and the
      file not truncated, the first opening reads what was appended after that, and nothing else. */
  lemma NothingOldIsRead(steps: seq<Step>, states: seq<State>)
    requires Ran(steps, states) && FirstOpen(steps) < |steps| && OpenFails !in steps[..FirstOpen(steps)]
    ensures Openings(Last(states)) != []
    ensures var h, disk := Openings(Last(states))[0], Last(states).disk;
            h.file !in disk.truncated ==>
              && h.file < |states[FirstOpen(steps)].disk.files| && h.file < |disk.files|
              && ReadsOnFrom(h.read, states[FirstOpen(steps)].disk.files[h.file], disk.files[h.file])
  {
    FirstOpeningStarts(steps, states);
    RanReaches(steps, states);
    hide Ran, Reaches;
    var s, k := Last(states), FirstOpen(steps);
    var h := Openings(s)[0];
    if h.file !in s.disk.truncated {
      GrowsFrom(steps, states, k, |steps|, h.file);
      FirstRead(steps, s);
    }
  }

  lemma FirstRead(steps: seq<Step>, s: State)
    requires Reaches(steps, s) && Openings(s) != [] && Openings(s)[0].file !in s.disk.truncated
    ensures var h := Openings(s)[0];
            && h.file < |s.disk.files| && h.start + |h.read| <= |s.disk.files[h.file]|
            && h.read == s.disk.files[h.file][h.start..h.start + |h.read|]
  {
    EveryRun(steps, s);
    EveryClosedGrows(steps, s);
    hide Reaches, BlocksLines, CompleteLines, Fragment, LinesRead;
    if s.closed != [] {
      assert ClosedOk(s.closed[0]);
      PrefixSlice(s.closed[0].contents, s.disk.files[s.closed[0].h.file], s.closed[0].h.start, |s.closed[0].h.read|);
    }
  }

  lemma PrefixSlice(a: bytes, b: bytes, from: nat, n: nat)
    requires a <= b && from + n <= |a|
    ensures a[from..from + n] == b[from..from + n]
  {
  }

  // ---- opening a file again ---------------------------------------------------

  /** The tailer drops its handle, to open the path again. */
  predicate GivesUp(s: State, step: Step) {
    Enabled(s, step) && HasHandle(s) && Apply(s, step).phase.Opening?
  }

  /** It does so while the path still names the file of that very handle. */
  predicate GivesUpInPlace(s: State, step: Step) {
    GivesUp(s, step) && s.disk.path == Some(s.phase.h.file)
  }

  /** The path is given back to a file that was closed. */
  predicate Reclaims(s: State, step: Step) {
    step.MoveBack? && exists i :: 0 <= i < |s.closed| && s.closed[i].h.file == step.was
  }

  predicate InOrder(s: State, step: Step, s': State) {
    Takes(s, step, s') && !GivesUpInPlace(s, step) && !Reclaims(s, step)
  }

  /** A run in which no handle is given up while its file has the path, and no file that was given up gets
      the path back. */
  ghost predicate ReachesInOrder(steps: seq<Step>, s: State) {
    if steps == [] then Init(s)
    else exists before :: ReachesInOrder(Front(steps), before) && InOrder(before, Last(steps), s)
  }

  /** A file that does not have the path. */
  predicate Behind(s: State, file: nat) {
    file < |s.disk.files| && s.disk.path != Some(file)
  }

  /** The files of the openings so far, oldest first. */
  function Opened(s: State): (files: seq<nat>)
    ensures |files| == |Openings(s)|
  {
    seq(|Openings(s)|, i requires 0 <= i < |Openings(s)| => Openings(s)[i].file)
  }

  predicate Distinct(files: seq<nat>) {
    forall i, j :: 0 <= i < j < |files| ==> files[i] != files[j]
  }

  predicate EachOnce(s: State) {
    && Distinct(Opened(s))
    && (HasHandle(s) ==> s.phase.h.file < |s.disk.files|)
    && (!s.phase.Exited? ==> forall i :: 0 <= i < |s.closed| ==> Behind(s, s.closed[i].h.file))
  }

  lemma StaysBehind(s: State, step: Step, file: nat)
    requires Behind(s, file) && Enabled(s, step) && step != MoveBack(file)
    ensures Behind(Apply(s, step), file)
  {
    hide Consume;
  }

  /** Only `Open` makes a new opening, of the file that has the path; only a handle in use is closed. */
  lemma OpenedStep(s: State, step: Step)
    requires Enabled(s, step)
    ensures var s' := Apply(s, step);
            && Opened(s') == Opened(s) + (if step == Open then [s.disk.path.value] else [])
            && (s'.closed == s.closed
                || (HasHandle(s) && !HasHandle(s') && s'.closed == s.closed + [Last(s'.closed)]
                    && Last(s'.closed).h == s.phase.h && (GivesUp(s, step) || s'.phase.Exited?)))
            && (HasHandle(s') && step != Open ==> HasHandle(s) && s'.phase.h.file == s.phase.h.file)
            && (step == Open ==> s.phase.Opening? && s'.closed == s.closed && HasHandle(s')
                                 && s.disk.path == Some(s'.phase.h.file) && s'.phase.h.file < |s.disk.files|)
            && (s.phase.Exited? ==> s'.phase.Exited?)
            && |s.disk.files| <= |s'.disk.files|
  {
    hide Consume;
  }

  lemma MoveClosesNothing(s: State, step: Step)
    requires Enabled(s, step) && step.MoveBack?
    ensures Apply(s, step).closed == s.closed
  {
  }

  lemma EachOnceKept(s: State, step: Step)
    requires EachOnce(s) && Enabled(s, step) && !GivesUpInPlace(s, step) && !Reclaims(s, step)
    ensures EachOnce(Apply(s, step))
  {
    hide Apply, Enabled;
    var s' := Apply(s, step);
    OpenedStep(s, step);
    forall i | 0 <= i < |s'.closed| && !s'.phase.Exited?
      ensures Behind(s', s'.closed[i].h.file)
    {
      if step.MoveBack? {
        MoveClosesNothing(s, step);
      }
      StaysBehind(s, step, s'.closed[i].h.file);
    }
    if step == Open {
      forall i | 0 <= i < |Opened(s)|
        ensures Opened(s)[i] != s.disk.path.value
      {
        assert Opened(s)[i] == s.closed[i].h.file && Behind(s, s.closed[i].h.file);
      }
    }
  }

  /** In such a run no file is opened twice; so each byte of an untruncated file is read at most once. */
  lemma {:induction false} InOrderReadsOnce(steps: seq<Step>, s: State)
    requires ReachesInOrder(steps, s)
    ensures EachOnce(s)
  {
    if steps != [] {
      var before :| ReachesInOrder(Front(steps), before) && InOrder(before, Last(steps), s);
      InOrderReadsOnce(Front(steps), before);
      hide Apply, Enabled, ReachesInOrder, EachOnce, GivesUpInPlace, Reclaims;
      EachOnceKept(before, Last(steps));
    }
  }

  /** The given steps, taken one by one from `s`, end in `s'`. */
  predicate Leads(s: State, steps: seq<Step>, s': State)
    decreases |steps|
  {
    if steps == [] then s == s'
    else Enabled(s, steps[0]) && Leads(Apply(s, steps[0]), steps[1..], s')
  }

  lemma {:induction false} NeverReopened(s: State, steps: seq<Step>, s': State, file: nat)
    requires Behind(s, file) && Leads(s, steps, s') && MoveBack(file) !in steps
    ensures |Opened(s)| <= |Opened(s')| && file !in Opened(s')[|Opened(s)|..]
    decreases |steps|
  {
    if steps != [] {
      var next := Apply(s, steps[0]);
      StaysBehind(s, steps[0], file);
      OpenedStep(s, steps[0]);
      NeverReopened(next, steps[1..], s', file);
      hide Apply, Enabled, Leads, Opened;
      OpenedGrows(next, steps[1..], s');
      assert Opened(s')[|Opened(s)|..] == Opened(next)[|Opened(s)|..] + Opened(s')[|Opened(next)|..];
    }
  }

  lemma {:induction false} OpenedGrows(s: State, steps: seq<Step>, s': State)
    requires Leads(s, steps, s')
    ensures Opened(s) <= Opened(s')
    decreases |steps|
  {
    if steps != [] {
      OpenedStep(s, steps[0]);
      OpenedGrows(Apply(s, steps[0]), steps[1..], s');
    }
  }

  /** A handle that is given up, after a drained rename or remove or after an error, is followed by another
      opening of the same file, in some continuation where nobody moves that file back onto the path,
      exactly when its file still has the path at that moment; and then the very next step can be to open
      it from its start. Moving it back is the other way: then too it can be opened from its start at once. */
  lemma ReopenedIff(steps: seq<Step>, s: State, step: Step)
    requires Reaches(steps, s) && GivesUp(s, step)
    ensures (exists more, s' ::
               Leads(Apply(s, step), more, s') && MoveBack(s.phase.h.file) !in more && Reopened(s, s'))
            <==> GivesUpInPlace(s, step)
    ensures !GivesUpInPlace(s, step) ==>
              var back := MoveBack(s.phase.h.file);
              && Enabled(Apply(s, step), back) && Enabled(Apply(Apply(s, step), back), Open)
              && Apply(Apply(Apply(s, step), back), Open).phase
                 == Watching(Handle(s.phase.h.file, 0, 0, 0, [], [], []))
    ensures GivesUpInPlace(s, step) ==>
              var gaveUp := Apply(s, step);
              && Enabled(gaveUp, Open)
              && Apply(gaveUp, Open).phase == Watching(Handle(s.phase.h.file, 0, 0, 0, [], [], []))
  {
    HeldFile(steps, s);
    hide Apply, Enabled, Opened, Leads, Reopened, Reaches;
    var gaveUp := Apply(s, step);
    if GivesUpInPlace(s, step) {
      ReopensNext(s, step);
      assert Leads(gaveUp, [Open], Apply(gaveUp, Open)) && MoveBack(s.phase.h.file) !in [Open];
    } else {
      NotByGivingUp(s, step);
      StaysBehind(s, step, s.phase.h.file);
      BackReopens(s, step);
      forall more, s' | Leads(gaveUp, more, s') && MoveBack(s.phase.h.file) !in more
        ensures !Reopened(s, s')
      {
        NotReopened(s, step, more, s');
      }
    }
  }

  /** Some opening after those of `s` is of the file that `s` holds. */
  predicate Reopened(s: State, s': State)
    requires HasHandle(s)
  {
    |Opened(s)| <= |Opened(s')| && s.phase.h.file in Opened(s')[|Opened(s)|..]
  }

  lemma HeldFile(steps: seq<Step>, s: State)
    requires Reaches(steps, s) && HasHandle(s)
    ensures s.phase.h.file < |s.disk.files|
  {
    EveryRun(steps, s);
  }

  lemma NotReopened(s: State, step: Step, more: seq<Step>, s': State)
    requires GivesUp(s, step) && Behind(Apply(s, step), s.phase.h.file) && Leads(Apply(s, step), more, s')
    requires MoveBack(s.phase.h.file) !in more
    ensures !Reopened(s, s')
  {
    hide Apply, Enabled, Leads, Behind, Opened;
    OpenedStep(s, step);
    NeverReopened(Apply(s, step), more, s', s.phase.h.file);
    assert step != Open by { OpenNeedsNoHandle(s); }
  }

  lemma NotByGivingUp(s: State, step: Step)
    requires GivesUp(s, step)
    ensures !step.MoveBack?
  {
  }

  lemma BackReopens(s: State, step: Step)
    requires GivesUp(s, step) && Behind(s, s.phase.h.file)
    ensures var gaveUp, back := Apply(s, step), MoveBack(s.phase.h.file);
            && Enabled(gaveUp, back) && Enabled(Apply(gaveUp, back), Open)
            && Apply(Apply(gaveUp, back), Open).phase == Watching(Handle(s.phase.h.file, 0, 0, 0, [], [], []))
  {
    GivenUp(s, step);
  }

  lemma OpenNeedsNoHandle(s: State)
    ensures HasHandle(s) ==> !Enabled(s, Open)
  {
  }

  lemma ReopensNext(s: State, step: Step)
    requires GivesUpInPlace(s, step) && s.phase.h.file < |s.disk.files|
    ensures var gaveUp := Apply(s, step);
            && Enabled(gaveUp, Open) && Leads(gaveUp, [Open], Apply(gaveUp, Open))
            && Apply(gaveUp, Open).phase == Watching(Handle(s.phase.h.file, 0, 0, 0, [], [], []))
            && Reopened(s, Apply(gaveUp, Open))
  {
    GivenUp(s, step);
    OpenedStep(s, step);
    OpenNeedsNoHandle(s);
    var gaveUp := Apply(s, step);
    hide Opened;
    OpenedStep(gaveUp, Open);
    assert [Open][1..] == [];
    assert Leads(Apply(gaveUp, Open), [], Apply(gaveUp, Open));
    assert Opened(Apply(gaveUp, Open)) == Opened(s) + [s.phase.h.file];
  }

  lemma GivenUp(s: State, step: Step)
    requires GivesUp(s, step)
    ensures Apply(s, step).disk == s.disk.(events := Apply(s, step).disk.events)
    ensures Apply(s, step).phase == Opening(false)
  {
    hide Consume;
  }

  lemma Extend(steps: seq<Step>, s: State, step: Step) returns (steps': seq<Step>, s': State)
    requires Reaches(steps, s) && Enabled(s, step)
    ensures s' == Apply(s, step) && Reaches(steps', s')
  {
    s' := Apply(s, step);
    steps' := steps + [step];
    assert Front(steps') == steps && Last(steps') == step;
    assert Takes(s, step, s');
  }

  /** Two quick rotations: the second rename event closes the file that already replaced the first
      one, the path is opened again, and a line of it is sent twice, without any read error. */
  lemma RapidRotationRereads() returns (steps: seq<Step>, s: State)
    ensures Reaches(steps, s) && s.disk.truncated == {}
    ensures s.closed == [Closed(Unread(0), true, true, []), Closed(Done(), true, true, [120, LF])]
    ensures s.phase == Reading(Done(), false) && s.disk.files == [[], [], [120, LF]]
    ensures BlocksLines(s.sent) == [[120], [120]]
  {
    hide Reaches, Split, BlocksLines, CompleteLines, Fragment;
    steps, s := ReopenAfterFirst();
    steps, s := Extend(steps, s, TakeEvent);
    steps, s := Extend(steps, s, TakeEvent);
    steps, s := ReadLine(steps, s);
    steps, s := DrainedReopen(steps, s, Done());
    steps, s := Extend(steps, s, TakeTimer);
    steps, s := Extend(steps, s, Check(false));
    steps, s := ReadLine(steps, s);
    assert s.sent == [[120], [120]];
    TwoBlocks();
  }

  lemma ReopenAfterFirst() returns (steps: seq<Step>, s: State)
    ensures Reaches(steps, s)
    ensures s == State(Disk([[], [], [120, LF]], Some(2), [Created, Gone, Created, Write], {}), 16, Watching(Unread(2)),
                       [Closed(Unread(0), true, true, [])], [])
  {
    hide Reaches;
    steps, s := RotateTwice();
    steps, s := Extend(steps, s, TakeEvent);
    steps, s := DrainedReopen(steps, s, Unread(0));
  }

  lemma DrainedReopen(steps: seq<Step>, s: State, h: Handle) returns (steps': seq<Step>, s': State)
    requires Reaches(steps, s) && s.phase == Reading(h, true) && s.disk.path == Some(2) && |s.disk.files| == 3
    requires h.file < 3 && h.offset >= |s.disk.files[h.file]| && s.disk.truncated == {}
    ensures Reaches(steps', s')
    ensures s' == s.(phase := Watching(Unread(2)), closed := s.closed + [Closed(h, true, true, s.disk.files[h.file])])
  {
    hide Reaches;
    steps', s' := Extend(steps, s, ReadEOF);
    steps', s' := Extend(steps', s', Open);
  }

  function Unread(file: nat): Handle {
    Handle(file, 0, 0, 0, [], [], [])
  }

  function Done(): Handle {
    Handle(2, 0, 2, 2, [], [120, LF], [[120]])
  }

  lemma RotateTwice() returns (steps: seq<Step>, s: State)
    ensures Reaches(steps, s)
    ensures s == State(Disk([[], [], [120, LF]], Some(2), [Gone, Created, Gone, Created, Write], {}), 16,
                       Watching(Unread(0)), [], [])
  {
    hide Reaches, Apply, Enabled;
    steps, s := WatchEmpty();
    steps, s := Rotate(steps, s);
    steps, s := Rotate(steps, s);
    assert s.disk.files == [[], [], []];
    assert s.disk.events == [Gone, Created, Gone, Created];
    steps, s := AppendLine(steps, s);
  }

  lemma AppendLine(steps: seq<Step>, s: State) returns (steps': seq<Step>, s': State)
    requires Reaches(steps, s) && s.disk.path == Some(2) && s.disk.files == [[], [], []]
    ensures Reaches(steps', s')
    ensures s' == s.(disk := s.disk.(files := [[], [], [120, LF]], events := s.disk.events + [Write]))
  {
    hide Reaches;
    steps', s' := Extend(steps, s, Append(2, [120, LF]));
    assert [] + [120, LF] == [120, LF];
    assert s'.disk.files == [[], [], [120, LF]];
  }

  lemma Rotate(steps: seq<Step>, s: State) returns (steps': seq<Step>, s': State)
    requires Reaches(steps, s) && s.disk.path.Some?
    ensures Reaches(steps', s')
    ensures s' == s.(disk := s.disk.(files := s.disk.files + [[]], path := Some(|s.disk.files|),
                                     events := s.disk.events + [Gone, Created]))
  {
    hide Reaches;
    steps', s' := Extend(steps, s, RenameAway);
    steps', s' := Extend(steps', s', Recreate);
    assert s.disk.events + [Gone] + [Created] == s.disk.events + [Gone, Created];
  }

  lemma ReadLine(steps: seq<Step>, s: State) returns (steps': seq<Step>, s': State)
    requires Reaches(steps, s) && s.phase.Reading? && s.bufferSize == 16 && |s.disk.files| == 3
    requires s.phase.h == Unread(2) && s.disk.files[2] == [120, LF]
    ensures Reaches(steps', s')
    ensures s' == s.(phase := s.phase.(h := Done()), sent := s.sent + [[120]])
  {
    hide Reaches, Consume;
    ConsumeFirst(120);
    assert s.disk.files[2][0..2] == [120, LF];
    steps', s' := Extend(steps, s, Read(2));
    assert [] + [120, LF] == [120, LF] && [] + [[120]] == [[120]];
  }

  /** A read of one line of one byte, and of that byte alone. */
  lemma ConsumeByte(cont: bytes, b: byte)
    ensures Consume(cont, [b, LF]) == Consumed([], Some(cont + [b]))
    ensures b != LF ==> Consume(cont, [b]) == Consumed(cont + [b], None)
  {
    assert [b, LF][..1] == [b];
  }

  lemma ConsumeFirst(b: byte)
    ensures Consume([], [b, LF]) == Consumed([], Some([b]))
    ensures b != LF ==> Consume([], [b]) == Consumed([b], None)
  {
    ConsumeByte([], b);
    assert [] + [b] == [b];
  }

  lemma TwoBlocks()
    ensures BlocksLines([[120], [120]]) == [[120], [120]]
  {
    SplitFree([120], LF);
    assert [[120], [120]][1..] == [[120]];
  }

  /** A line is read, the file is renamed away and given up after it was drained, and it is renamed back:
      it is opened again and its line is sent again, although it was given up when it had lost the path. */
  lemma MovedBackRereads() returns (steps: seq<Step>, s: State)
    ensures Reaches(steps, s) && s.disk.truncated == {} && s.disk.files == [[120, LF]]
    ensures Opened(s) == [0, 0] && BlocksLines(s.sent) == [[120], [120]]
  {
    hide Reaches, Consume, Split, BlocksLines, CompleteLines, Fragment;
    steps, s := MovedBack();
    ConsumeFirst(120);
    steps, s := Extend(steps, s, TakeTimer);
    steps, s := Extend(steps, s, Check(false));
    assert s.disk.files[0][0..2] == [120, LF];
    steps, s := Extend(steps, s, Read(2));
    assert s.sent == [[120], [120]];
    TwoBlocks();
  }

  lemma MovedBack() returns (steps: seq<Step>, s: State)
    ensures Reaches(steps, s) && s.phase == Watching(Unread(0)) && s.bufferSize == 16
    ensures s.disk.files == [[120, LF]] && s.disk.truncated == {} && s.sent == [[120]]
    ensures |s.closed| == 1 && s.closed[0].h.file == 0
  {
    hide Reaches, Consume;
    steps, s := WatchEmpty();
    ConsumeFirst(120);
    steps, s := AppendAndRead(steps, s, [120, LF]);
    assert s.disk.files[0] == [] + [120, LF] == [120, LF];
    steps, s := Extend(steps, s, RenameAway);
    assert s.disk.events == [Write, Gone];
    steps, s := Extend(steps, s, TakeEvent);
    steps, s := Extend(steps, s, Check(true));
    assert s.disk.events == [Gone] && s.phase.Watching?;
    steps, s := Extend(steps, s, TakeEvent);
    steps, s := Extend(steps, s, ReadEOF);
    steps, s := Extend(steps, s, MoveBack(0));
    steps, s := Extend(steps, s, Open);
  }

  // ---- truncation, run by run ---------------------------------------------------

  /** A check rewinds exactly when the file is shorter than the position; so a truncated file that has grown
      back to that size by then goes unnoticed. */
  lemma NoticedIff(steps: seq<Step>, s: State, throttled: bool)
    requires Reaches(steps, s) && Enabled(s, Check(throttled))
    ensures var h, h', size := s.phase.h, Apply(s, Check(throttled)).phase.h, |s.disk.files[s.phase.h.file]|;
            && h'.offset == h'.position && (h'.offset != h.offset <==> size < h.offset)
            && (size < h.offset ==> h'.offset == 0)
  {
    EveryRun(steps, s);
  }

  /** One file, empty, watched from its start. */
  lemma WatchEmpty() returns (steps: seq<Step>, s: State)
    ensures Reaches(steps, s)
    ensures s == State(Disk([[]], Some(0), [], {}), 16, Watching(Unread(0)), [], [])
  {
    steps, s := [], State(Disk([[]], Some(0), [], {}), 16, Opening(true), [], []);
    assert Reaches(steps, s);
    hide Reaches;
    steps, s := Extend(steps, s, Open);
  }

  /** The environment appends to the watched file, and the timer has the tailer check it and read it all. */
  lemma AppendAndRead(steps: seq<Step>, s: State, data: bytes) returns (steps': seq<Step>, s': State)
    requires Reaches(steps, s) && s.phase.Watching? && s.disk.path == Some(0) && s.phase.h.file == 0
    requires |s.disk.files| == 1 && 0 < |data| <= s.bufferSize
    requires s.phase.h.offset == s.phase.h.position == |s.disk.files[0]|
    ensures Reaches(steps', s') && s'.phase.Watching?
    ensures var h, c := s.phase.h, Consume(s.phase.h.cont, data);
            var out := if c.block.Some? then [c.block.value] else [];
            s' == s.(disk := s.disk.(files := [s.disk.files[0] + data], events := s.disk.events + [Write]),
                     phase := Watching(h.(offset := h.offset + |data|, position := h.position + |data|, cont := c.cont,
                                          read := h.read + data, blocks := h.blocks + out)),
                     sent := s.sent + out)
  {
    hide Reaches, Consume;
    steps', s' := Extend(steps, s, Append(0, data));
    assert s'.disk.files == [s.disk.files[0] + data];
    assert s'.disk.files[0][|s.disk.files[0]|..|s.disk.files[0]| + |data|] == data;
    steps', s' := Extend(steps', s', TakeTimer);
    steps', s' := Extend(steps', s', Check(false));
    steps', s' := Extend(steps', s', Read(|data|));
    steps', s' := Extend(steps', s', ReadEOF);
  }

  /** `a` is read and carried, the file is truncated and refilled with the line `b`: what is sent is `ab`. */
  lemma TruncationGluesLines() returns (steps: seq<Step>, s: State)
    ensures Reaches(steps, s) && s.disk.files == [[98, LF]] && s.closed == []
    ensures CompleteLines(s.disk.files[0]) == [[98]] && BlocksLines(s.sent) == [[97, 98]]
  {
    hide Reaches, Consume, Split, BlocksLines, CompleteLines;
    steps, s := RewindWithCarry();
    ConsumeByte([97], 98);
    assert s.disk.files[0][0..2] == [98, LF];
    steps, s := Extend(steps, s, Read(2));
    assert [97] + [98] == [97, 98] && [98] + [LF] == [98, LF];
    assert s.sent == [[97, 98]];
    OneLine([98]);
    OneLine([97, 98]);
  }

  lemma RewindWithCarry() returns (steps: seq<Step>, s: State)
    ensures Reaches(steps, s) && s.phase.Reading? && s.bufferSize == 16
    ensures s.phase.h.file == s.phase.h.offset == 0 && s.phase.h.cont == [97]
    ensures s.disk.files == [[98, LF]] && s.closed == [] && s.sent == []
  {
    hide Reaches, Consume;
    steps, s := WatchEmpty();
    ConsumeFirst(97);
    steps, s := AppendAndRead(steps, s, [97]);
    assert s.phase.h.cont == [97] && s.disk.files == [[] + [97]] && s.sent == [];
    steps, s := Extend(steps, s, Truncate(0, 0));
    steps, s := Extend(steps, s, TakeTimer);
    steps, s := Extend(steps, s, Check(false));
    assert s.disk.files[0] == [];
    steps, s := Extend(steps, s, Append(0, [98, LF]));
    assert s.disk.files[0] == [] + [98, LF] == [98, LF];
  }

  /** The line `a` is read, the file is truncated and refilled with the line `b` before the next check:
      `b` is never read, although nothing was carried. */
  lemma RegrownIsNotRead() returns (steps: seq<Step>, s: State)
    ensures Reaches(steps, s) && s.disk.files == [[98, LF]] && s.disk.path == Some(0) && s.sent == [[97]]
    ensures s.phase.Watching? && s.phase.h.cont == [] && s.phase.h.offset == |s.disk.files[0]|
  {
    hide Reaches, Consume;
    steps, s := WatchEmpty();
    ConsumeFirst(97);
    steps, s := AppendAndRead(steps, s, [97, LF]);
    assert s.sent == [[97]] && s.phase.h.cont == [] && s.phase.h.offset == 2;
    steps, s := Refill(steps, s, [98, LF]);
    steps, s := NothingToRead(steps, s);
  }

  lemma Refill(steps: seq<Step>, s: State, data: bytes) returns (steps': seq<Step>, s': State)
    requires Reaches(steps, s) && s.disk.path == Some(0) && |s.disk.files| == 1
    ensures Reaches(steps', s')
    ensures s' == s.(disk := s.disk.(files := [data], events := s.disk.events + [Write],
                                     truncated := s.disk.truncated + {0}))
  {
    hide Reaches;
    steps', s' := Extend(steps, s, Truncate(0, 0));
    assert s'.disk.files[0] == [];
    steps', s' := Extend(steps', s', Append(0, data));
    assert s'.disk.files[0] == [] + data == data;
    assert s'.disk.files == [data];
  }

  lemma NothingToRead(steps: seq<Step>, s: State) returns (steps': seq<Step>, s': State)
    requires Reaches(steps, s) && s.phase.Watching? && s.phase.h.file < |s.disk.files|
    requires s.phase.h.offset == s.phase.h.position == |s.disk.files[s.phase.h.file]|
    ensures Reaches(steps', s') && s' == s
  {
    hide Reaches;
    steps', s' := Extend(steps, s, TakeTimer);
    steps', s' := Extend(steps', s', Check(false));
    steps', s' := Extend(steps', s', ReadEOF);
  }

  lemma OneLine(line: bytes)
    requires Free(line, LF)
    ensures Split(line, LF) == [line] && BlocksLines([line]) == [line] && CompleteLines(line + [LF]) == [line]
  {
    SplitFree(line, LF);
    SplitBeforeTail(line, []);
    assert line + [LF] + [] == line + [LF];
  }
}
