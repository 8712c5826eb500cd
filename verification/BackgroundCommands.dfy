/**
  Handing a background command over to its own thread (Execute_Command, Command_Thread and the buffer clearing
  in QCLI_Process_Input_Data, modules/console/qcli.c). The console task and the command threads share the input
  buffer, the parameter list, one Thread_Info with its ready event, and Thread_Count; each step below is one
  atomic action, so a run is any interleaving of them.
*/
module BackgroundCommands {
  import opened Bytes
  import opened Tokeniser

  const MAX_THREADS: int := 5
  const AMPERSAND: seq<byte> := [38]

  /**
    Where the console task is: waiting for input; about to execute the command whose parameters start at
    `first`; running it itself, with the lock released; waiting for the thread it created; or about to
    clear the buffer. It holds the lock except when idle or running the command itself.
  */
  datatype Phase = Idle | Executing(first: nat, command: nat) | Foreground | Waiting(thread: nat) | Clearing

  /** Where a command thread is. */
  datatype Stage = Born | LineCopied | ListCopied | Running

  /** A command, given by the address of its entry, with its parameters. */
  datatype Job = Job(command: nat, parameters: seq<seq<byte>>)

  /** A command thread: its local copies, and what it was created for. */
  datatype Thread = Thread(stage: Stage, line: seq<byte>, starts: seq<nat>, command: nat, intended: Job)

  datatype State = State(
    buffer: seq<byte>, list: seq<nat>, phase: Phase,
    infoFirst: nat, infoCount: nat, infoCommand: nat, ready: bool,
    threadCount: int, threads: map<nat, Thread>, nextId: nat)

  predicate LockFree(s: State) {
    s.phase.Idle? || s.phase.Foreground?
  }

  /** What the tokeniser leaves behind: a terminated buffer and at most 18 parameters that start inside it. */
  predicate LegalLine(buffer: seq<byte>, list: seq<nat>) {
    && |buffer| == COMMAND_STRING_LENGTH + 1 && buffer[COMMAND_STRING_LENGTH] == NUL
    && |list| <= MAX_PARAMETERS + 1 && forall i :: 0 <= i < |list| ==> list[i] < COMMAND_STRING_LENGTH
  }

  /** The command was entered with a last parameter "&". */
  predicate InBackground(buffer: seq<byte>, list: seq<nat>, first: nat)
    requires LegalLine(buffer, list)
  {
    first < |list| && CStringAt(buffer, list[|list| - 1]) == AMPERSAND
  }

  datatype Step =
    | Receive(buffer: seq<byte>, list: seq<nat>, first: nat, command: nat)
    | Refuse
    | Launch(created: bool)
    | RunForeground
    | ForegroundDone
    | CopyLine(thread: nat)
    | CopyList(thread: nat)
    | SignalReady(thread: nat)
    | Wake
    | Clear
    | Finish(thread: nat)

  ghost predicate Next(s: State, step: Step, s': State) {
    match step
    case Receive(buffer, list, first, command) =>
      && s.phase.Idle? && LegalLine(buffer, list) && 1 <= first <= |list|
      && s' == s.(buffer := buffer, list := list, phase := Executing(first, command))
    case Refuse =>
      s.phase.Executing? && LegalLine(s.buffer, s.list) && InBackground(s.buffer, s.list, s.phase.first)
      && s.threadCount >= MAX_THREADS && s' == s.(phase := Clearing)
    case Launch(created) =>
      s.phase.Executing? && LegalLine(s.buffer, s.list) && InBackground(s.buffer, s.list, s.phase.first)
      && s.threadCount < MAX_THREADS
      && LaunchThread(s, s.phase.first, s.phase.command, created, s')
    case RunForeground =>
      s.phase.Executing? && LegalLine(s.buffer, s.list) && !InBackground(s.buffer, s.list, s.phase.first)
      && s' == s.(phase := Foreground)
    case ForegroundDone => s.phase.Foreground? && s' == s.(phase := Clearing)
    case CopyLine(t) =>
      t in s.threads && s.threads[t].stage.Born?
      && s' == s.(threads := s.threads[t := s.threads[t].(stage := LineCopied, line := s.buffer)])
    case CopyList(t) =>
      t in s.threads && s.threads[t].stage.LineCopied? && s.infoFirst + s.infoCount <= |s.list|
      && var starts := s.list[s.infoFirst..s.infoFirst + s.infoCount];
      var thread := s.threads[t].(stage := ListCopied, starts := starts, command := s.infoCommand);
      s' == s.(threads := s.threads[t := thread])
    case SignalReady(t) =>
      t in s.threads && s.threads[t].stage.ListCopied?
      && s' == s.(ready := true, threads := s.threads[t := s.threads[t].(stage := Running)])
    case Wake => s.phase.Waiting? && s.ready && s' == s.(phase := Clearing)
    case Clear => s.phase.Clearing? && s' == s.(phase := Idle, buffer := Rep(NUL, COMMAND_STRING_LENGTH + 1))
    case Finish(t) =>
      t in s.threads && s.threads[t].stage.Running? && LockFree(s)
      && s' == s.(threads := s.threads - {t}, threadCount := s.threadCount - 1)
  }

  /** The count goes up, the event is cleared, Thread_Info is filled in, and the thread is created or not. */
  ghost predicate LaunchThread(s: State, first: nat, command: nat, created: bool, s': State)
    requires LegalLine(s.buffer, s.list) && first < |s.list|
  {
    var count := |s.list| - first - 1;
    var t := s.(ready := false, infoFirst := first, infoCount := count, infoCommand := command);
    var thread := Thread(Born, [], [], 0, Job(command, TokensAt(s.buffer, s.list[first..first + count])));
    if created then
      s' == t.(threadCount := s.threadCount + 1, threads := s.threads[s.nextId := thread], nextId := s.nextId + 1,
               phase := Waiting(s.nextId))
    else s' == t.(phase := Clearing)
  }

  // ----- The invariant -----

  /** The thread's own copies hold the parameters of its line, inside its own buffer. */
  ghost predicate HasItsParameters(t: Thread) {
    && |t.line| == COMMAND_STRING_LENGTH + 1 && t.line[COMMAND_STRING_LENGTH] == NUL
    && |t.starts| < MAX_PARAMETERS && (forall i :: 0 <= i < |t.starts| ==> t.starts[i] < |t.line|)
    && Job(t.command, TokensAt(t.line, t.starts)) == t.intended
  }

  /** The shared data that the thread has not copied yet is still that of its line. */
  ghost predicate StartsWell(s: State, t: Thread) {
    && LegalLine(s.buffer, s.list) && s.infoFirst + s.infoCount < |s.list| && s.infoCount < MAX_PARAMETERS
    && t.intended == Job(s.infoCommand, TokensAt(s.buffer, s.list[s.infoFirst..s.infoFirst + s.infoCount]))
    && (t.stage.LineCopied? ==> t.line == s.buffer)
  }

  ghost predicate ThreadInv(s: State, id: nat)
    requires id in s.threads
  {
    var t := s.threads[id];
    && id < s.nextId
    && (t.stage.ListCopied? || t.stage.Running? ==> HasItsParameters(t))
    && (!t.stage.Running? ==> s.phase == Waiting(id) && !s.ready)
    && (t.stage.Born? || t.stage.LineCopied? ==> StartsWell(s, t))
  }

  ghost predicate Inv(s: State) {
    && (forall id :: id in s.threads ==> ThreadInv(s, id))
    && s.threadCount == |s.threads| && s.threadCount <= MAX_THREADS
    && (s.phase.Waiting? && !s.ready ==> s.phase.thread in s.threads && !s.threads[s.phase.thread].stage.Running?)
    && (s.phase.Executing? ==> LegalLine(s.buffer, s.list) && 1 <= s.phase.first <= |s.list|)
  }

  ghost predicate Init(s: State) {
    s.phase.Idle? && s.threadCount == 0 && s.threads == map[] && s.nextId == 0
  }

  lemma InitInv(s: State)
    requires Init(s)
    ensures Inv(s)
  {
  }

  /** Steps of the console task that leave the threads alone, once no thread depends on the shared data. */
  lemma ConsoleKeeps(s: State, step: Step, s': State)
    requires Inv(s) && Next(s, step, s')
    requires step.Receive? || step.Refuse? || step.RunForeground? || step.ForegroundDone? || step.Wake? || step.Clear?
    ensures Inv(s')
  {
    hide HasItsParameters, StartsWell;
    forall id | id in s'.threads
      ensures ThreadInv(s', id)
    {
      assert ThreadInv(s, id);
      if step.Wake? {
        assert s.threads[id].stage.Running?;
      }
    }
  }

  lemma LaunchKeeps(s: State, created: bool, s': State)
    requires Inv(s) && Next(s, Launch(created), s')
    ensures Inv(s')
  {
    hide HasItsParameters, TokensAt;
    forall id | id in s'.threads
      ensures ThreadInv(s', id)
    {
      if id in s.threads {
        assert ThreadInv(s, id);
      }
    }
    if created {
      assert s.nextId !in s.threads;
    }
  }

  /** The thread that takes a step on the way to its local copies. */
  lemma CopyOwn(s: State, step: Step, s': State)
    requires Next(s, step, s') && (step.CopyLine? || step.CopyList? || step.SignalReady?)
    requires ThreadInv(s, step.thread)
    ensures ThreadInv(s', step.thread)
    ensures s'.threads.Keys == s.threads.Keys && |s'.threads| == |s.threads|
  {
    hide TokensAt;
    var id := step.thread;
    assert s'.threads.Keys == s.threads.Keys;
    if step.CopyList? {
      CopiedList(s, s.threads[id], s'.threads[id]);
    }
  }

  lemma CopyKeeps(s: State, step: Step, s': State)
    requires Inv(s) && Next(s, step, s') && (step.CopyLine? || step.CopyList? || step.SignalReady?)
    ensures Inv(s')
  {
    hide HasItsParameters, TokensAt, StartsWell, LegalLine;
    var id := step.thread;
    assert ThreadInv(s, id);
    CopyOwn(s, step, s');
    forall other | other in s'.threads && other != id
      ensures ThreadInv(s', other)
    {
      assert ThreadInv(s, other);
      SameThread(s, s', other);
    }
  }

  lemma CopiedList(s: State, t: Thread, t': Thread)
    requires StartsWell(s, t) && t.stage.LineCopied?
    requires t' == t.(stage := ListCopied, starts := s.list[s.infoFirst..s.infoFirst + s.infoCount],
      command := s.infoCommand)
    ensures HasItsParameters(t')
  {
    hide TokensAt;
    assert forall i :: 0 <= i < |t'.starts| ==> t'.starts[i] == s.list[s.infoFirst + i];
  }

  lemma FinishKeeps(s: State, id: nat, s': State)
    requires Inv(s) && Next(s, Finish(id), s')
    ensures Inv(s')
  {
    hide HasItsParameters, StartsWell, ThreadInv, LegalLine;
    OneLess(s.threads, id);
    forall other | other in s'.threads
      ensures ThreadInv(s', other)
    {
      assert ThreadInv(s, other);
      SameThread(s, s', other);
    }
  }

  lemma OneLess(m: map<nat, Thread>, id: nat)
    requires id in m
    ensures |m - {id}| == |m| - 1 && forall x :: x in m - {id} ==> x in m && x != id && (m - {id})[x] == m[x]
  {
    assert (m - {id}).Keys == m.Keys - {id};
  }

  lemma SameThread(s: State, s': State, id: nat)
    requires id in s.threads && ThreadInv(s, id) && id in s'.threads && s'.threads[id] == s.threads[id]
    requires s'.buffer == s.buffer && s'.list == s.list && s'.infoFirst == s.infoFirst && s'.infoCount == s.infoCount
    requires s'.infoCommand == s.infoCommand
    requires s.threads[id].stage.Running? || (s'.ready == s.ready && s'.phase == s.phase)
    requires s'.nextId >= s.nextId
    ensures ThreadInv(s', id)
  {
  }

  lemma StepKeeps(s: State, step: Step, s': State)
    requires Inv(s) && Next(s, step, s')
    ensures Inv(s')
  {
    hide Inv, Next;
    match step
    case Launch(created) => LaunchKeeps(s, created, s');
    case Finish(id) => FinishKeeps(s, id, s');
    case CopyLine(_) => CopyKeeps(s, step, s');
    case CopyList(_) => CopyKeeps(s, step, s');
    case SignalReady(_) => CopyKeeps(s, step, s');
    case _ => ConsoleKeeps(s, step, s');
  }

  // ----- Runs -----

  ghost predicate IsRun(states: seq<State>, steps: seq<Step>) {
    && |states| == |steps| + 1 && Init(states[0])
    && forall i :: 0 <= i < |steps| ==> Next(states[i], steps[i], states[i + 1])
  }

  lemma {:induction false} RunInv(states: seq<State>, steps: seq<Step>, i: nat)
    requires IsRun(states, steps) && i < |states|
    ensures Inv(states[i])
  {
    hide Inv, Next, Init;
    if i == 0 {
      InitInv(states[0]);
    } else {
      RunInv(states, steps, i - 1);
      StepKeeps(states[i - 1], steps[i - 1], states[i]);
    }
  }

  // ----- What the lines of a run ask for -----

  /** The command and the parameters of the line received last; a last parameter "&" is not one of them. */
  ghost function Wanted(steps: seq<Step>): Job
    decreases |steps|
  {
    if steps == [] then Job(0, [])
    else
      var step := steps[|steps| - 1];
      if step.Receive? && LegalLine(step.buffer, step.list) && step.first < |step.list|
      then Job(step.command, TokensAt(step.buffer, step.list)[step.first..|step.list| - 1])
      else Wanted(steps[..|steps| - 1])
  }

  /** What the threads of a run were created for, in order. */
  ghost function Handed(steps: seq<Step>): seq<Job>
    decreases |steps|
  {
    if steps == [] then []
    else
      var before, step := steps[..|steps| - 1], steps[|steps| - 1];
      if step == Launch(true) then Handed(before) + [Wanted(before)] else Handed(before)
  }

  /** The command about to be executed is that of the last line, and threads are numbered in order. */
  ghost predicate LineInv(s: State, steps: seq<Step>) {
    && (s.phase.Executing? && LegalLine(s.buffer, s.list) && s.phase.first < |s.list| ==>
          Wanted(steps) == Job(s.phase.command, TokensAt(s.buffer, s.list)[s.phase.first..|s.list| - 1]))
    && s.nextId == |Handed(steps)|
    && forall id :: id in s.threads ==> id < |Handed(steps)| && s.threads[id].intended == Handed(steps)[id]
  }

  lemma TokensSlice(b: seq<byte>, list: seq<nat>, i: nat, j: nat)
    requires (forall k :: 0 <= k < |list| ==> list[k] <= |b|) && i <= j <= |list|
    ensures TokensAt(b, list[i..j]) == TokensAt(b, list)[i..j]
  {
  }

  lemma LineStep(s: State, steps: seq<Step>, step: Step, s': State)
    requires LineInv(s, steps) && Next(s, step, s')
    ensures LineInv(s', steps + [step])
  {
    hide TokensAt, LegalLine, InBackground;
    var more := steps + [step];
    assert more[..|steps|] == steps && more[|steps|] == step;
    if step.Launch? {
      LaunchedJob(s, step.created, s');
    }
  }

  lemma LaunchedJob(s: State, created: bool, s': State)
    requires Next(s, Launch(created), s')
    ensures s.phase.Executing? && LegalLine(s.buffer, s.list) && s.phase.first < |s.list|
    ensures var job := Job(s.phase.command, TokensAt(s.buffer, s.list)[s.phase.first..|s.list| - 1]);
      if created then s'.threads == s.threads[s.nextId := s'.threads[s.nextId]] && s'.nextId == s.nextId + 1
                      && s.nextId in s'.threads && s'.threads[s.nextId].intended == job
      else s'.threads == s.threads && s'.nextId == s.nextId
  {
    TokensSlice(s.buffer, s.list, s.phase.first, |s.list| - 1);
  }

  lemma {:induction false} LineRun(states: seq<State>, steps: seq<Step>, i: nat)
    requires IsRun(states, steps) && i < |states|
    ensures LineInv(states[i], steps[..i])
  {
    hide LineInv, Next;
    if i == 0 {
      assert steps[..0] == [];
      NoLineYet(states[0]);
    } else {
      LineRun(states, steps, i - 1);
      LineStep(states[i - 1], steps[..i - 1], steps[i - 1], states[i]);
      assert steps[..i - 1] + [steps[i - 1]] == steps[..i];
    }
  }

  lemma NoLineYet(s: State)
    requires Init(s)
    ensures LineInv(s, [])
  {
  }

  /**
    Under every interleaving, the n-th background command runs the command of the line it was entered on, with the
    parameters of that line, although the shared buffer may long have been cleared or reused: its pointers lie in
    its own copy, and they fit the local array of 17. Thread_Count is the number of live threads, within 0..5.
  */
  lemma EveryThreadRunsItsOwnLine(states: seq<State>, steps: seq<Step>, i: nat)
    requires IsRun(states, steps) && i < |states|
    ensures 0 <= states[i].threadCount == |states[i].threads| <= 5
    ensures forall id :: id in states[i].threads && states[i].threads[id].stage.Running? ==>
              var t := states[i].threads[id];
              && |t.starts| <= 17 && (forall k :: 0 <= k < |t.starts| ==> t.starts[k] < |t.line|)
              && id < |Handed(steps[..i])| && Job(t.command, TokensAt(t.line, t.starts)) == Handed(steps[..i])[id]
  {
    RunInv(states, steps, i);
    LineRun(states, steps, i);
    forall id | id in states[i].threads && states[i].threads[id].stage.Running?
      ensures HasItsParameters(states[i].threads[id])
    {
      assert ThreadInv(states[i], id);
    }
  }

  /** The line received last, if its command has parameters, and whether it ends in "&". */
  ghost function EndsInAmpersand(steps: seq<Step>): bool
    decreases |steps|
  {
    if steps == [] then false
    else
      var step := steps[|steps| - 1];
      if step.Receive? && LegalLine(step.buffer, step.list)
      then step.first < |step.list| && TokensAt(step.buffer, step.list)[|step.list| - 1] == [38]
      else EndsInAmpersand(steps[..|steps| - 1])
  }

  /** The console is about to execute the line received last. */
  ghost predicate AboutTo(s: State, steps: seq<Step>) {
    s.phase.Executing? ==>
      && LegalLine(s.buffer, s.list) && s.phase.first <= |s.list|
      && (InBackground(s.buffer, s.list, s.phase.first) <==> EndsInAmpersand(steps))
  }

  lemma AmpersandStep(s: State, steps: seq<Step>, step: Step, s': State)
    requires AboutTo(s, steps) && Next(s, step, s')
    ensures AboutTo(s', steps + [step])
  {
    hide TokensAt, LegalLine;
    var more := steps + [step];
    assert more[..|steps|] == steps && more[|steps|] == step;
    if step.Receive? {
      LastToken(step.buffer, step.list);
    }
  }

  lemma {:induction false} AmpersandRun(states: seq<State>, steps: seq<Step>, i: nat)
    requires IsRun(states, steps) && i < |states|
    ensures AboutTo(states[i], steps[..i])
  {
    hide Next, LegalLine, InBackground;
    if i > 0 {
      AmpersandRun(states, steps, i - 1);
      AmpersandStep(states[i - 1], steps[..i - 1], steps[i - 1], states[i]);
      assert steps[..i - 1] + [steps[i - 1]] == steps[..i];
    }
  }

  lemma LastToken(b: seq<byte>, list: seq<nat>)
    requires LegalLine(b, list) && list != []
    ensures TokensAt(b, list)[|list| - 1] == CStringAt(b, list[|list| - 1]) && |TokensAt(b, list)| == |list|
  {
  }

  /** A command goes to a thread, or is refused for want of one, exactly when its line ends in the parameter "&". */
  lemma BackgroundIffAmpersand(states: seq<State>, steps: seq<Step>, i: nat)
    requires IsRun(states, steps) && i < |steps|
    ensures steps[i].Launch? || steps[i].Refuse? ==> EndsInAmpersand(steps[..i])
    ensures steps[i].RunForeground? ==> !EndsInAmpersand(steps[..i])
    ensures steps[i].Refuse? ==> states[i].threadCount >= 5
    ensures steps[i].Launch? ==> states[i].threadCount < 5
  {
    AmpersandRun(states, steps, i);
    assert Next(states[i], steps[i], states[i + 1]);
  }

  /** The console never waits for a thread that has already reported: while it waits, its thread works on it. */
  lemma WaitingIsAnswered(states: seq<State>, steps: seq<Step>, i: nat)
    requires IsRun(states, steps) && i < |states| && states[i].phase.Waiting? && !states[i].ready
    ensures states[i].phase.thread in states[i].threads
    ensures exists step, s' :: (step == CopyLine(states[i].phase.thread) || step == CopyList(states[i].phase.thread)
              || step == SignalReady(states[i].phase.thread)) && Next(states[i], step, s')
  {
    RunInv(states, steps, i);
    var s := states[i];
    var id := s.phase.thread;
    var t := s.threads[id];
    assert ThreadInv(s, id);
    match t.stage
    case Born =>
      assert Next(s, CopyLine(id), s.(threads := s.threads[id := t.(stage := LineCopied, line := s.buffer)]));
    case LineCopied =>
      var starts := s.list[s.infoFirst..s.infoFirst + s.infoCount];
      var thread := t.(stage := ListCopied, starts := starts, command := s.infoCommand);
      assert Next(s, CopyList(id), s.(threads := s.threads[id := thread]));
    case ListCopied =>
      assert Next(s, SignalReady(id), s.(ready := true, threads := s.threads[id := t.(stage := Running)]));
  }
}
