/**
  Handing scan results to the caller (wmi_start_scan, wlan_get_scan_results and the scan events in
  drivers/wlan/wmi_api.c; the block lock in drivers/wlan/qapi_wlan_base.c). Callers are serialised by the
  block lock, which they keep while they wait. Each critical section of the context mutex is one step; the
  completion handler leaves the mutex before it sets the signal. The firmware completes each scan that it was asked
  for at most once, in any order; its event does not say which scan it is of.
*/
module ScanHandoff {
  import opened ScanResults

  /** The call that holds the block lock; room is the number of entries its caller can take. */
  datatype Call =
    | NoCall
    | StartEntered
    | ScanRequested
    | GetEntered(room: nat)
    | Waiting(room: nat, pending: nat)
    | Awake(room: nat)

  /** The event thread: between events, or between leaving the mutex and setting the signal. */
  datatype EventThread = Ready | Signalling

  /** What a caller was given: which scan was the latest, and the entries. */
  datatype Delivery = Delivery(scan: nat, room: nat, entries: seq<Bss>)

  datatype State = State(
    call: Call, event: EventThread,
    inProgress: bool, waitFlag: bool, signal: bool,
    stored: seq<Bss>,
    // What the firmware has yet to complete.
    outstanding: set<nat>,
    // What happened: scans started, batches taken in by the latest, batches of the completed ones, scans that
    // callers waited for, scans that were pending when a completion found a waiter, the scans that the firmware
    // meant by these completions, and the results handed out.
    scans: nat, batches: seq<seq<Bss>>, completed: map<nat, seq<seq<Bss>>>,
    awaited: seq<nat>, answered: seq<nat>, meant: seq<nat>, delivered: seq<Delivery>)

  const INITIAL := State(NoCall, Ready, false, false, false, [], {}, 0, [], map[0 := []], [], [], [], [])

  datatype Step =
    | EnterStart | RequestScan | LeaveStart
    | EnterGet(room: nat) | CheckProgress | WakeUp | Deliver
    | ResultEvent(batch: seq<Bss>) | CompletionEvent(batch: seq<Bss>, of: nat) | SetSignal

  predicate Can(s: State, step: Step) {
    match step
    case EnterStart | EnterGet(_) => s.call.NoCall?
    case RequestScan => s.call.StartEntered?
    case LeaveStart => s.call.ScanRequested?
    case CheckProgress => s.call.GetEntered?
    case WakeUp => s.call.Waiting? && s.signal
    case Deliver => s.call.Awake?
    case ResultEvent(_) => s.event.Ready?
    case CompletionEvent(_, of) => s.event.Ready? && of in s.outstanding
    case SetSignal => s.event.Signalling?
  }

  /** Take in a batch, if a scan is pending. */
  function TakeIn(cap: nat, s: State, batch: seq<Bss>): State {
    if s.inProgress then s.(stored := Added(cap, s.stored, batch), batches := s.batches + [batch]) else s
  }

  /** The completion of the pending scan, or so the driver takes it. */
  function Complete(s: State, of: nat): State {
    if !s.inProgress then s
    else
      var t := s.(inProgress := false, completed := s.completed[s.scans := s.batches]);
      if s.waitFlag
      then t.(waitFlag := false, event := Signalling, answered := s.answered + [s.scans], meant := s.meant + [of])
      else t
  }

  function HandOut(s: State, room: nat): State {
    s.(call := NoCall, delivered := s.delivered + [Delivery(s.scans, room, Take(room, s.stored))])
  }

  function Do(cap: nat, s: State, step: Step): State {
    match step
    case EnterStart => s.(call := StartEntered)
    case RequestScan =>
      s.(call := ScanRequested, inProgress := true, stored := [], scans := s.scans + 1, batches := [],
         outstanding := s.outstanding + {s.scans + 1})
    case LeaveStart => s.(call := NoCall)
    case EnterGet(room) => s.(call := GetEntered(room))
    case CheckProgress =>
      if !s.call.GetEntered? then s
      else if s.inProgress
      then s.(waitFlag := true, call := Waiting(s.call.room, s.scans), awaited := s.awaited + [s.scans])
      else HandOut(s, s.call.room)
    case WakeUp => if s.call.Waiting? then s.(signal := false, call := Awake(s.call.room)) else s
    case Deliver => if s.call.Awake? then HandOut(s, s.call.room) else s
    case ResultEvent(batch) => TakeIn(cap, s, batch)
    case CompletionEvent(batch, of) =>
      Complete(TakeIn(cap, s, batch).(outstanding := s.outstanding - {of}), of)
    case SetSignal => s.(signal := true, event := Ready)
  }

  predicate Feasible(cap: nat, s: State, steps: seq<Step>)
    decreases |steps|
  {
    steps == [] || (Can(s, steps[0]) && Feasible(cap, Do(cap, s, steps[0]), steps[1..]))
  }

  function Run(cap: nat, s: State, steps: seq<Step>): State
    decreases |steps|
  {
    if steps == [] then s else Run(cap, Do(cap, s, steps[0]), steps[1..])
  }

  // ----- The invariant -----

  /** Whoever waits is about to be woken or waits for a pending scan: no wake-up is lost and none is left over. */
  predicate WakeInv(s: State) {
    && (s.waitFlag ==> s.inProgress && !s.signal && s.event.Ready?)
    && (s.signal ==> s.event.Ready?)
    && (s.call.Waiting? <==> s.waitFlag || s.signal || s.event.Signalling?)
    && (s.call.Waiting? ==> s.call.pending == s.scans)
    && (s.call.Waiting? && !s.waitFlag ==> !s.inProgress)
    && (s.call.Awake? ==> !s.inProgress)
  }

  /** Waits and completions that answer them pair up in order. */
  predicate PairInv(s: State) {
    if s.waitFlag then s.awaited == s.answered + [s.scans]
    else s.awaited == s.answered
  }

  predicate ResultInv(cap: nat, s: State) {
    && s.stored == Accumulated(cap, s.batches)
    && (!s.inProgress ==> s.scans in s.completed && s.completed[s.scans] == s.batches)
    && (forall k <- s.completed :: k <= s.scans)
    && (s.inProgress ==> s.scans !in s.completed)
  }

  /** A caller got the results of a completed scan, as many as it had room for. */
  predicate Served(cap: nat, completed: map<nat, seq<seq<Bss>>>, d: Delivery) {
    d.scan in completed && d.entries == Take(d.room, Accumulated(cap, completed[d.scan]))
  }

  predicate DeliveryInv(cap: nat, s: State) {
    forall d <- s.delivered :: Served(cap, s.completed, d)
  }

  predicate Inv(cap: nat, s: State) {
    WakeInv(s) && PairInv(s) && ResultInv(cap, s) && DeliveryInv(cap, s)
  }

  lemma WakeKept(cap: nat, s: State, step: Step)
    requires WakeInv(s) && PairInv(s) && Can(s, step)
    ensures WakeInv(Do(cap, s, step)) && PairInv(Do(cap, s, step))
  {
    hide Added, Take;
  }

  lemma ResultKept(cap: nat, s: State, step: Step)
    requires WakeInv(s) && ResultInv(cap, s) && Can(s, step)
    ensures ResultInv(cap, Do(cap, s, step))
  {
    hide Added, Take;
    match step
    case ResultEvent(batch) => TakeInAccumulates(cap, s, batch);
    case CompletionEvent(batch, _) => TakeInAccumulates(cap, s, batch);
    case _ =>
  }

  lemma TakeInAccumulates(cap: nat, s: State, batch: seq<Bss>)
    requires s.stored == Accumulated(cap, s.batches)
    ensures TakeIn(cap, s, batch).stored == Accumulated(cap, TakeIn(cap, s, batch).batches)
  {
    assert (s.batches + [batch])[..|s.batches|] == s.batches;
  }

  lemma DeliveryKept(cap: nat, s: State, step: Step)
    requires Inv(cap, s) && Can(s, step)
    ensures DeliveryInv(cap, Do(cap, s, step))
  {
    hide Added, Take, Accumulated;
  }

  lemma {:induction false} EveryRunKeepsInv(cap: nat, s: State, steps: seq<Step>)
    requires Inv(cap, s) && Feasible(cap, s, steps)
    ensures Inv(cap, Run(cap, s, steps))
    decreases |steps|
  {
    hide Do, WakeInv, PairInv, ResultInv, DeliveryInv;
    if steps != [] {
      WakeKept(cap, s, steps[0]);
      ResultKept(cap, s, steps[0]);
      DeliveryKept(cap, s, steps[0]);
      EveryRunKeepsInv(cap, Do(cap, s, steps[0]), steps[1..]);
    }
  }

  lemma InitialInv(cap: nat)
    ensures Inv(cap, INITIAL)
  {
  }

  // ----- What callers may rely on -----

  /**
    No interleaving loses a wake-up: a waiting caller waits for a pending scan with its flag up, or the signal
    is about to be set, or it is set, and only one of these. The signal is never set without a waiter.
  */
  lemma NoLostWakeUp(cap: nat, steps: seq<Step>)
    requires Feasible(cap, INITIAL, steps)
    ensures var s := Run(cap, INITIAL, steps);
      && (s.signal ==> s.call.Waiting?)
      && (s.call.Waiting? ==>
            || (s.waitFlag && s.inProgress && !s.signal && s.event.Ready?)
            || (!s.waitFlag && !s.inProgress && !s.signal && s.event.Signalling?)
            || (!s.waitFlag && !s.inProgress && s.signal && s.event.Ready?))
  {
    InitialInv(cap);
    EveryRunKeepsInv(cap, INITIAL, steps);
  }

  /** Each wait was answered by exactly one completion, of the scan that was pending when it began, in order. */
  lemma OneCompletionPerWait(cap: nat, steps: seq<Step>)
    requires Feasible(cap, INITIAL, steps)
    ensures var s := Run(cap, INITIAL, steps);
      s.awaited == if s.call.Waiting? && s.inProgress then s.answered + [s.call.pending] else s.answered
  {
    InitialInv(cap);
    EveryRunKeepsInv(cap, INITIAL, steps);
  }

  // ----- What the steps of a run say about the results -----

  /** How many scans were requested. */
  function Requests(steps: seq<Step>): nat
    decreases |steps|
  {
    if steps == [] then 0
    else Requests(steps[..|steps| - 1]) + if steps[|steps| - 1].RequestScan? then 1 else 0
  }

  /** The last request has not seen a completion yet. */
  predicate Pending(steps: seq<Step>)
    decreases |steps|
  {
    if steps == [] then false
    else if steps[|steps| - 1].RequestScan? then true
    else if steps[|steps| - 1].CompletionEvent? then false
    else Pending(steps[..|steps| - 1])
  }

  /** The batches reported since the last request, up to and including its completion. */
  function Reported(steps: seq<Step>): seq<seq<Bss>>
    decreases |steps|
  {
    if steps == [] then []
    else
      var before, step := steps[..|steps| - 1], steps[|steps| - 1];
      if step.RequestScan? then []
      else if Pending(before) && (step.ResultEvent? || step.CompletionEvent?) then Reported(before) + [step.batch]
      else Reported(before)
  }

  /** The batches of each scan that was completed; number 0 stands for none. */
  function Finished(steps: seq<Step>): map<nat, seq<seq<Bss>>>
    decreases |steps|
  {
    if steps == [] then map[0 := []]
    else
      var before := steps[..|steps| - 1];
      if Pending(before) && steps[|steps| - 1].CompletionEvent?
      then Finished(before)[Requests(before) := Reported(steps)]
      else Finished(before)
  }

  /** For each call that asks for results: its room, and the number of the latest scan requested before it. */
  datatype Question = Question(room: nat, scan: nat)

  function Questions(steps: seq<Step>): seq<Question>
    decreases |steps|
  {
    if steps == [] then []
    else
      var before, step := steps[..|steps| - 1], steps[|steps| - 1];
      if step.EnterGet? then Questions(before) + [Question(step.room, Requests(before))] else Questions(before)
  }

  /** The call that is asking for results, if any. */
  predicate Asking(c: Call) {
    c.GetEntered? || c.Waiting? || c.Awake?
  }

  predicate AnswersQuestions(delivered: seq<Delivery>, questions: seq<Question>) {
    |delivered| <= |questions|
    && forall i :: 0 <= i < |delivered| ==> questions[i] == Question(delivered[i].room, delivered[i].scan)
  }

  predicate StepsInv(s: State, steps: seq<Step>) {
    && s.scans == Requests(steps) && s.inProgress == Pending(steps) && s.batches == Reported(steps)
    && s.completed == Finished(steps) && AnswersQuestions(s.delivered, Questions(steps))
    && |Questions(steps)| == |s.delivered| + (if Asking(s.call) then 1 else 0)
    && (Asking(s.call) ==> Questions(steps)[|s.delivered|] == Question(s.call.room, s.scans))
  }

  lemma StepsStep(cap: nat, s: State, steps: seq<Step>, step: Step)
    requires StepsInv(s, steps) && Can(s, step)
    ensures StepsInv(Do(cap, s, step), steps + [step])
  {
    hide Added, Take;
    var more := steps + [step];
    assert more[..|steps|] == steps && more[|steps|] == step;
  }

  lemma {:induction false} RunOneMore(cap: nat, s: State, steps: seq<Step>, step: Step)
    ensures Run(cap, s, steps + [step]) == Do(cap, Run(cap, s, steps), step)
    ensures Feasible(cap, s, steps + [step]) <==> Feasible(cap, s, steps) && Can(Run(cap, s, steps), step)
    decreases |steps|
  {
    hide Do, Can;
    var more := steps + [step];
    if steps == [] {
      assert more[0] == step && more[1..] == [];
    } else {
      assert more[0] == steps[0] && more[1..] == steps[1..] + [step];
      RunOneMore(cap, Do(cap, s, steps[0]), steps[1..], step);
    }
  }

  lemma {:induction false} StepsRun(cap: nat, steps: seq<Step>)
    requires Feasible(cap, INITIAL, steps)
    ensures StepsInv(Run(cap, INITIAL, steps), steps)
    decreases |steps|
  {
    hide StepsInv, Do, Can, Run, Feasible;
    if steps == [] {
      NoStepsYet(cap);
    } else {
      var before, step := steps[..|steps| - 1], steps[|steps| - 1];
      assert steps == before + [step];
      RunOneMore(cap, INITIAL, before, step);
      StepsRun(cap, before);
      StepsStep(cap, Run(cap, INITIAL, before), before, step);
    }
  }

  lemma NoStepsYet(cap: nat)
    ensures StepsInv(Run(cap, INITIAL, []), [])
  {
  }

  /**
    From the steps alone: the callers that ask for results are answered in order. Each is given the results of the
    latest scan requested before it asked, which are accumulated from the batches reported from that request up to
    its completion and from no others, as many as it has room for.
  */
  lemma CallersGetTheirScan(cap: nat, steps: seq<Step>, i: nat)
    requires Feasible(cap, INITIAL, steps) && i < |Run(cap, INITIAL, steps).delivered|
    ensures i < |Questions(steps)| && Questions(steps)[i].scan in Finished(steps)
    ensures Run(cap, INITIAL, steps).delivered[i].entries
         == Take(Questions(steps)[i].room, Accumulated(cap, Finished(steps)[Questions(steps)[i].scan]))
  {
    hide Run, Feasible, Take, Accumulated, WakeInv, PairInv, ResultInv;
    InitialInv(cap);
    EveryRunKeepsInv(cap, INITIAL, steps);
    StepsRun(cap, steps);
    var s := Run(cap, INITIAL, steps);
    assert Served(cap, s.completed, s.delivered[i]);
  }

  /** With repeat-free batches: the distinct first occurrences among these batches, up to capacity and room. */
  lemma CallersGetDeduplicatedScans(cap: nat, steps: seq<Step>, i: nat)
    requires Feasible(cap, INITIAL, steps) && i < |Run(cap, INITIAL, steps).delivered|
    requires i < |Questions(steps)| && Questions(steps)[i].scan in Finished(steps)
    requires AllClean(cap, Finished(steps)[Questions(steps)[i].scan])
    ensures var entries := Run(cap, INITIAL, steps).delivered[i].entries;
      && entries == Take(Questions(steps)[i].room, Take(cap, Dedup(Flatten(Finished(steps)[Questions(steps)[i].scan]))))
      && Distinct(entries)
  {
    hide Run, Feasible, Accumulated, Dedup, Flatten, AllClean;
    CallersGetTheirScan(cap, steps, i);
    StoredIsDeduplicated(cap, Finished(steps)[Questions(steps)[i].scan]);
  }

  // ----- Which completion answers -----

  /** Each wait was answered by the completion of the scan that was waited for. */
  predicate AnsweredRight(s: State) {
    s.meant == s.answered
  }

  /** A scan is requested while one is in progress, which wmi_start_scan does not look at. */
  predicate Overlaps(s: State, step: Step) {
    step.RequestScan? && s.inProgress
  }

  predicate NeverOverlaps(cap: nat, s: State, steps: seq<Step>)
    decreases |steps|
  {
    steps == [] || (!Overlaps(s, steps[0]) && NeverOverlaps(cap, Do(cap, s, steps[0]), steps[1..]))
  }

  /** Only the pending scan is outstanding. */
  predicate OnlyPending(s: State) {
    s.outstanding == if s.inProgress then {s.scans} else {}
  }

  lemma RightStep(cap: nat, s: State, step: Step)
    requires OnlyPending(s) && AnsweredRight(s) && Can(s, step) && !Overlaps(s, step)
    ensures OnlyPending(Do(cap, s, step)) && AnsweredRight(Do(cap, s, step))
  {
    hide Added, Take;
  }

  lemma {:induction false} RightRun(cap: nat, s: State, steps: seq<Step>)
    requires OnlyPending(s) && AnsweredRight(s) && Feasible(cap, s, steps) && NeverOverlaps(cap, s, steps)
    ensures OnlyPending(Run(cap, s, steps)) && AnsweredRight(Run(cap, s, steps))
    decreases |steps|
  {
    hide Do, Can, Overlaps, OnlyPending, AnsweredRight;
    if steps != [] {
      RightStep(cap, s, steps[0]);
      RightRun(cap, Do(cap, s, steps[0]), steps[1..]);
    }
  }

  /** Over every run in which no scan is requested while one is in progress, every wait is answered right. */
  lemma RightWithoutOverlap(cap: nat, steps: seq<Step>)
    requires Feasible(cap, INITIAL, steps) && NeverOverlaps(cap, INITIAL, steps)
    ensures AnsweredRight(Run(cap, INITIAL, steps))
  {
    RightRun(cap, INITIAL, steps);
  }

  /** What the firmware may yet complete was requested, and a pending scan is among it. */
  predicate OutstandingInv(s: State) {
    (s.inProgress ==> s.scans in s.outstanding) && forall k <- s.outstanding :: k <= s.scans
  }

  lemma OutstandingStep(cap: nat, s: State, step: Step)
    requires OutstandingInv(s) && Can(s, step)
    ensures OutstandingInv(Do(cap, s, step))
  {
    hide Added, Take;
  }

  lemma {:induction false} OutstandingRun(cap: nat, s: State, steps: seq<Step>)
    requires OutstandingInv(s) && Feasible(cap, s, steps)
    ensures OutstandingInv(Run(cap, s, steps))
    decreases |steps|
  {
    hide Do, Can, OutstandingInv;
    if steps != [] {
      OutstandingStep(cap, s, steps[0]);
      OutstandingRun(cap, Do(cap, s, steps[0]), steps[1..]);
    }
  }

  /** What follows an overlapping request: the caller waits for the new scan, and scan k completes. */
  function Misled(room: nat, k: nat): seq<Step> {
    [LeaveStart, EnterGet(room), CheckProgress, CompletionEvent([], k)]
  }

  lemma MisledRun(cap: nat, s: State, room: nat, k: nat)
    requires s.call.ScanRequested? && s.inProgress && s.event.Ready? && k in s.outstanding && !s.waitFlag
    ensures Feasible(cap, s, Misled(room, k)) && NeverOverlaps(cap, s, Misled(room, k))
    ensures var t := Run(cap, s, Misled(room, k));
      t.answered == s.answered + [s.scans] && t.meant == s.meant + [k] && t.event.Signalling?
  {
    hide Added, Take;
    var steps := Misled(room, k);
    var s1 := Do(cap, s, steps[0]);
    var s2 := Do(cap, s1, steps[1]);
    var s3 := Do(cap, s2, steps[2]);
    var s4 := Do(cap, s3, steps[3]);
    assert steps[1..][1..] == steps[2..] && steps[2..][1..] == steps[3..] && steps[3..][1..] == [];
    Unfold(cap, s, steps);
    Unfold(cap, s1, steps[1..]);
    Unfold(cap, s2, steps[2..]);
    Unfold(cap, s3, steps[3..]);
  }

  /**
    From every reachable state in which a scan is about to be requested while one is in progress, there is a
    continuation in which a caller that waits for the new scan is woken by the completion of the earlier one.
  */
  lemma OverlapMisleads(cap: nat, steps: seq<Step>, room: nat)
    requires Feasible(cap, INITIAL, steps)
    requires var s := Run(cap, INITIAL, steps);
      s.call.StartEntered? && s.inProgress
    ensures var s := Run(cap, INITIAL, steps);
      var t := Do(cap, s, RequestScan);
      var u := Run(cap, t, Misled(room, s.scans));
      && Can(s, RequestScan) && Feasible(cap, t, Misled(room, s.scans)) && NeverOverlaps(cap, t, Misled(room, s.scans))
      && u.answered == s.answered + [s.scans + 1] && u.meant == s.meant + [s.scans] && u.event.Signalling?
  {
    hide Do, Misled, Inv;
    var s := Run(cap, INITIAL, steps);
    InitialInv(cap);
    EveryRunKeepsInv(cap, INITIAL, steps);
    OutstandingRun(cap, INITIAL, steps);
    AfterRequest(cap, s);
    MisledRun(cap, Do(cap, s, RequestScan), room, s.scans);
  }

  lemma AfterRequest(cap: nat, s: State)
    requires Inv(cap, s) && s.call.StartEntered?
    ensures var t := Do(cap, s, RequestScan);
      && t.call.ScanRequested? && t.inProgress && t.event.Ready? && !t.waitFlag && t.scans == s.scans + 1
      && t.outstanding == s.outstanding + {s.scans + 1} && t.answered == s.answered && t.meant == s.meant
  {
  }

  /** Such a state is reached by two requests in a row; the second one may then be answered for the first. */
  lemma LateCompletionAnswers(cap: nat, room: nat) returns (steps: seq<Step>)
    ensures Feasible(cap, INITIAL, steps) && NeverOverlaps(cap, INITIAL, steps)
    ensures var s := Run(cap, INITIAL, steps);
      var t := Do(cap, s, RequestScan);
      && s.call.StartEntered? && s.inProgress && Can(s, RequestScan) && Feasible(cap, t, Misled(room, 1))
      && Run(cap, t, Misled(room, 1)).answered == [2] && Run(cap, t, Misled(room, 1)).meant == [1]
  {
    steps := [EnterStart, RequestScan, LeaveStart, EnterStart];
    TwoRequests(cap);
    OverlapMisleads(cap, steps, room);
  }

  lemma TwoRequests(cap: nat)
    ensures var steps := [EnterStart, RequestScan, LeaveStart, EnterStart];
      && Feasible(cap, INITIAL, steps) && NeverOverlaps(cap, INITIAL, steps)
      && Run(cap, INITIAL, steps) == INITIAL.(call := StartEntered, inProgress := true, scans := 1, outstanding := {1})
  {
    hide Added, Take;
    var steps := [EnterStart, RequestScan, LeaveStart, EnterStart];
    var s1 := INITIAL.(call := StartEntered);
    var s2 := INITIAL.(call := ScanRequested, inProgress := true, scans := 1, outstanding := {1});
    var s3 := s2.(call := NoCall);
    assert INITIAL.outstanding + {1} == {1};
    assert steps[1..][1..] == steps[2..] && steps[2..][1..] == steps[3..] && steps[3..][1..] == [];
    Unfold(cap, INITIAL, steps);
    Unfold(cap, s1, steps[1..]);
    Unfold(cap, s2, steps[2..]);
    Unfold(cap, s3, steps[3..]);
  }

  /** No continuation of s that keeps requests from overlapping has a wait answered by the wrong completion. */
  ghost predicate StaysRight(cap: nat, s: State) {
    forall rest: seq<Step> :: Feasible(cap, s, rest) && NeverOverlaps(cap, s, rest) ==> AnsweredRight(Run(cap, s, rest))
  }

  /**
    The exact guard. After any run whose requests did not overlap, when a caller is about to request a scan:
    every wait from then on is sure to be answered right if and only if no scan is in progress at that moment.
  */
  lemma RightIffNoneInProgress(cap: nat, steps: seq<Step>)
    requires Feasible(cap, INITIAL, steps) && NeverOverlaps(cap, INITIAL, steps)
    requires Run(cap, INITIAL, steps).call.StartEntered?
    ensures var s := Run(cap, INITIAL, steps);
      StaysRight(cap, Do(cap, s, RequestScan)) <==> !s.inProgress
  {
    hide Do, Run, Feasible, NeverOverlaps, Misled, OnlyPending;
    var s := Run(cap, INITIAL, steps);
    var t := Do(cap, s, RequestScan);
    StartsRight();
    RightRun(cap, INITIAL, steps);
    if s.inProgress {
      OverlapMisleads(cap, steps, 0);
      SameEnds(s.meant, s.scans, s.answered, s.scans + 1);
      assert !AnsweredRight(Run(cap, t, Misled(0, s.scans)));
    } else {
      RightStep(cap, s, RequestScan);
      forall rest: seq<Step> | Feasible(cap, t, rest) && NeverOverlaps(cap, t, rest)
        ensures AnsweredRight(Run(cap, t, rest))
      {
        RightRun(cap, t, rest);
      }
    }
  }

  lemma StartsRight()
    ensures OnlyPending(INITIAL) && AnsweredRight(INITIAL)
  {
  }

  lemma SameEnds(x: seq<nat>, a: nat, y: seq<nat>, b: nat)
    requires |x| == |y|
    ensures x + [a] == y + [b] <==> x == y && a == b
  {
    if x + [a] == y + [b] {
      assert x == (x + [a])[..|x|] == (y + [b])[..|y|] == y;
      assert a == (x + [a])[|x|] == (y + [b])[|y|] == b;
    }
  }

  /** A waiting caller is woken by the next completion, whatever results come before it. */
  lemma CompletionWakes(cap: nat, s: State, batch: seq<Bss>, of: nat)
    requires Inv(cap, s) && s.call.Waiting? && s.inProgress && of in s.outstanding
    ensures Feasible(cap, s, [CompletionEvent(batch, of), SetSignal, WakeUp, Deliver])
    ensures var t := Run(cap, s, [CompletionEvent(batch, of), SetSignal, WakeUp, Deliver]);
      t.call.NoCall? && !t.signal && t.delivered == s.delivered + [Delivery(s.scans, s.call.room,
        Take(s.call.room, Accumulated(cap, s.batches + [batch])))]
  {
    hide Do, Run, Feasible, Take, Inv;
    var s1 := Do(cap, s, CompletionEvent(batch, of));
    Completed(cap, s, batch, of);
    SignalThenDeliver(cap, s1);
    var steps := [CompletionEvent(batch, of), SetSignal, WakeUp, Deliver];
    assert steps[1..] == [SetSignal, WakeUp, Deliver];
    Unfold(cap, s, steps);
  }

  lemma Completed(cap: nat, s: State, batch: seq<Bss>, of: nat)
    requires Inv(cap, s) && s.call.Waiting? && s.inProgress && of in s.outstanding
    ensures Can(s, CompletionEvent(batch, of))
    ensures var t := Do(cap, s, CompletionEvent(batch, of));
      && t.event.Signalling? && t.call == s.call && t.scans == s.scans && t.delivered == s.delivered
      && t.stored == Accumulated(cap, s.batches + [batch])
  {
    hide Added, Take;
    TakeInAccumulates(cap, s, batch);
  }

  lemma SignalThenDeliver(cap: nat, s: State)
    requires s.call.Waiting? && s.event.Signalling?
    ensures Feasible(cap, s, [SetSignal, WakeUp, Deliver])
    ensures var t := Run(cap, s, [SetSignal, WakeUp, Deliver]);
      && t.call.NoCall? && !t.signal
      && t.delivered == s.delivered + [Delivery(s.scans, s.call.room, Take(s.call.room, s.stored))]
  {
    hide Added, Take;
    var s1 := s.(signal := true, event := Ready);
    var s2 := s1.(signal := false, call := Awake(s.call.room));
    var s3 := HandOut(s2, s.call.room);
    Unfold(cap, s, [SetSignal, WakeUp, Deliver]);
    Unfold(cap, s1, [WakeUp, Deliver]);
    Unfold(cap, s2, [Deliver]);
  }

  lemma Unfold(cap: nat, s: State, steps: seq<Step>)
    requires |steps| > 0
    ensures Run(cap, s, steps) == Run(cap, Do(cap, s, steps[0]), steps[1..])
    ensures Feasible(cap, s, steps) <==> Can(s, steps[0]) && Feasible(cap, Do(cap, s, steps[0]), steps[1..])
    ensures NeverOverlaps(cap, s, steps) <==>
      !Overlaps(s, steps[0]) && NeverOverlaps(cap, Do(cap, s, steps[0]), steps[1..])
  {
  }
}
