/**
  Disconnecting a station (wmi_disconnect and wmi_disconnect_event in drivers/wlan/wmi_api.c, the roaming
  calls in drivers/wlan/wlan_drv.c): three threads interleave at every shared access. The caller marks the
  disconnect, sends the command, waits for the signal, passes through the context mutex and stops roaming
  without holding it. The event handler runs under the mutex and starts roaming at its end. The roaming
  timer's handler also runs under the mutex, and restarts its one-shot timer without looking at the flag.
  Calls follow each other; between two of them roaming may be started and stopped by other events.
*/
module Disconnect {
  import opened Roaming

  datatype Owner = Nobody | EventThread | TimerThread

  /** Where wmi_disconnect is: each name says what it has just done. Away: between calls, something else may happen. */
  datatype Caller = Called | Marked | Sent | Woken | PassedMutex | SawStarted | ClearedFlag | Returned | Away

  /** Where the handler of the call's one disconnect event is. */
  datatype Handler = Unanswered | Queued | Entered | Told | Signalled | Unmarked | Flagged | Timed | Restarted | Done

  /** Where the roaming timer's handler is. */
  datatype Ticker = Idle | RanOut | Holding | Counted | GaveUp | Finishing

  datatype System = System(
    connected: bool, inProgress: bool, signal: bool, mutex: Owner,
    caller: Caller, handler: Handler, ticker: Ticker,
    started: bool, period: nat, count: nat, armed: bool, haveNetwork: bool,
    // What happened: whether the caller's last step left the timer running or about to be restarted, and
    // whether the timer has been running at some time since the return.
    survives: bool, ranOn: bool)

  /** Before a call: any flag, any timer, the timer's handler anywhere; no disconnect under way. */
  predicate Init(s: System) {
    && !s.inProgress && !s.signal && s.caller == Called && s.handler == Unanswered && MutexInv(s)
    && !s.survives && !s.ranOn
  }

  // ----- The caller -----

  predicate CallerCan(s: System) {
    match s.caller
    case Called | Woken => s.mutex == Nobody
    case Sent => s.signal
    case Returned | Away => false
    case _ => true
  }

  function CallerDoes(s: System): (t: System)
    ensures t.handler == s.handler && t.ticker == s.ticker && t.period == s.period && t.count == s.count
    ensures t.armed ==> s.armed
    ensures t.caller.Returned? && !s.caller.Returned? ==>
      t.survives == LeavesTimer(s) && (!s.ranOn ==> t.ranOn == t.armed)
  {
    match s.caller
    case Called => s.(inProgress := true, caller := Marked)
    case Marked => s.(caller := Sent)
    case Sent => s.(signal := false, caller := Woken)
    case Woken => s.(caller := PassedMutex)
    case PassedMutex =>
      if s.started then s.(caller := SawStarted)
      else s.(caller := Returned, survives := LeavesTimer(s), ranOn := s.armed)
    case SawStarted => s.(started := false, caller := ClearedFlag)
    case ClearedFlag => s.(armed := false, caller := Returned, survives := LeavesTimer(s))
    case _ => s
  }

  // ----- The event handler -----

  predicate HandlerCan(s: System) {
    match s.handler
    case Unanswered => s.caller == Sent
    case Queued => s.mutex == Nobody
    case Done => false
    case _ => true
  }

  function HandlerDoes(s: System): (t: System)
    ensures t.caller == s.caller && t.ticker == s.ticker && t.count == s.count
    ensures t.period == if s.handler.Flagged? then PERIOD_DEFAULT else s.period
    ensures (t.armed <==> s.armed || s.handler.Timed?) && (t.handler.Timed? <==> s.handler.Flagged?)
  {
    match s.handler
    case Unanswered => s.(handler := Queued)
    case Queued => s.(mutex := EventThread, handler := Entered)
    case Entered => s.(connected := false, handler := Told)
    case Told => if s.inProgress then s.(signal := true, handler := Signalled) else s.(handler := Unmarked)
    case Signalled => s.(inProgress := false, handler := Unmarked)
    case Unmarked => if !s.started && s.haveNetwork then s.(started := true, handler := Flagged)
                     else s.(handler := Restarted)
    case Flagged => s.(period := PERIOD_DEFAULT, handler := Timed)
    case Timed => s.(armed := true, handler := Restarted)
    case Restarted => s.(mutex := Nobody, handler := Done)
    case Done => s
  }

  // ----- The roaming timer -----

  predicate TickerCan(s: System) {
    match s.ticker
    case Idle => s.armed
    case RanOut => s.mutex == Nobody
    case _ => true
  }

  function TickerDoes(s: System): (t: System)
    ensures t.caller == s.caller && t.handler == s.handler
    ensures t.period == (if s.ticker.Holding? then NextPeriod(s.period, s.count) else s.period)
    ensures t.count == if s.ticker.Holding? then NextCount(s.count) else s.count
    ensures t.ticker.RanOut? ==> s.ticker.Idle? && !t.armed
    ensures t.ticker.Holding? ==> s.ticker.RanOut? && t.armed == s.armed
    ensures t.armed && !s.armed ==> s.ticker.Counted? && s.period <= PERIOD_MAX
  {
    match s.ticker
    case Idle => s.(armed := false, ticker := RanOut)
    case RanOut => s.(mutex := TimerThread, ticker := Holding)
    case Holding => s.(period := NextPeriod(s.period, s.count), count := NextCount(s.count), ticker := Counted)
    case Counted =>
      if s.period <= PERIOD_MAX
      then s.(armed := true, ranOn := s.ranOn || s.caller == Returned, ticker := Finishing)
      else s.(started := false, ticker := GaveUp)
    case GaveUp => s.(armed := false, ticker := Finishing)
    case Finishing => s.(mutex := Nobody, ticker := Idle)
  }

  // ----- Between calls -----

  /** Other events start and stop roaming under the mutex, and a network may be configured or cleared. */
  predicate Between(s: System, t: System) {
    || (s.caller == Returned && t == s.(caller := Away, survives := false, ranOn := false))
    || (s.caller == Away && s.mutex == Nobody && !s.started && s.haveNetwork
        && t == s.(started := true, period := PERIOD_DEFAULT, armed := true))
    || (s.caller == Away && s.mutex == Nobody && s.started && t == s.(started := false, armed := false))
    || (s.caller == Away && t == s.(connected := t.connected, haveNetwork := t.haveNetwork))
    || (s.caller == Away && t == s.(caller := Called, handler := Unanswered))
  }

  predicate Next(s: System, t: System) {
    || (CallerCan(s) && t == CallerDoes(s))
    || (HandlerCan(s) && t == HandlerDoes(s))
    || (TickerCan(s) && t == TickerDoes(s))
    || Between(s, t)
  }

  /** A run of the timer's handler is under way that ends by restarting the timer. */
  predicate WillRestart(s: System) {
    || ((s.ticker == RanOut || s.ticker == Holding) && NextPeriod(s.period, s.count) <= PERIOD_MAX)
    || (s.ticker == Counted && s.period <= PERIOD_MAX)
  }

  /**
    The caller's last step leaves the timer running or about to be restarted: it stops the timer while a
    restart is under way, or it skips the stop, the flag being down, although the timer runs or is about to.
  */
  predicate LeavesTimer(s: System) {
    || (s.caller == ClearedFlag && WillRestart(s))
    || (s.caller == PassedMutex && !s.started && (s.armed || WillRestart(s)))
  }

  predicate Reaches(run: seq<System>) {
    |run| > 0 && Init(run[0]) && Steps(run)
  }

  predicate Steps(run: seq<System>) {
    forall i :: 0 <= i < |run| - 1 ==> Next(run[i], run[i + 1])
  }

  // ----- The invariant -----

  /** The mutex is held exactly by the thread that is between its lock and its unlock. */
  predicate MutexInv(s: System) {
    && (s.mutex == EventThread <==> !s.handler.Unanswered? && !s.handler.Queued? && !s.handler.Done?)
    && (s.mutex == TimerThread <==> !s.ticker.Idle? && !s.ticker.RanOut?)
  }

  predicate BeforeReply(h: Handler) {
    h.Unanswered? || h.Queued? || h.Entered? || h.Told?
  }

  predicate Waiting(c: Caller) {
    c.Called? || c.Marked? || c.Sent?
  }

  /** The signal is set between the handler's reply and the caller's wake-up: it is neither lost nor stale. */
  predicate SignalInv(s: System) {
    && (s.signal <==> !BeforeReply(s.handler) && s.caller.Sent?)
    && (s.caller.Called? || s.caller.Marked? ==> s.handler.Unanswered?)
    && (!Waiting(s.caller) ==> !BeforeReply(s.handler))
    && (!Waiting(s.caller) && !s.caller.Woken? ==> s.handler.Done?)
  }

  predicate FlagInv(s: System) {
    && (s.inProgress <==> !s.caller.Called? && (BeforeReply(s.handler) || s.handler.Signalled?))
    && (s.connected ==> s.handler.Unanswered? || s.handler.Queued? || s.handler.Entered? || s.caller.Away?)
    && (s.caller.ClearedFlag? || s.caller.Returned? ==> !s.started)
  }

  /** After the return the timer runs again exactly because of what the caller's last step left behind. */
  predicate TimerInv(s: System) {
    && (!s.caller.Returned? ==> !s.ranOn && !s.survives)
    && (s.ranOn ==> s.survives)
    && (s.caller.Returned? && s.survives && !s.ranOn ==> WillRestart(s))
    && (s.caller.Returned? && !s.survives ==> !s.armed && !WillRestart(s))
  }

  predicate Inv(s: System) {
    MutexInv(s) && SignalInv(s) && FlagInv(s) && TimerInv(s)
  }

  lemma CallerKeeps(s: System)
    requires Inv(s) && CallerCan(s)
    ensures Inv(CallerDoes(s))
  {
    hide NextPeriod, NextCount;
  }

  lemma HandlerKeeps(s: System)
    requires Inv(s) && HandlerCan(s)
    ensures Inv(HandlerDoes(s))
  {
    hide NextPeriod, NextCount;
    match s.handler
    case Unanswered =>
    case Queued =>
    case Entered =>
    case Told =>
    case Signalled =>
    case Unmarked =>
    case Flagged =>
    case Timed =>
    case Restarted =>
    case Done =>
  }

  lemma TickerKeeps(s: System)
    requires Inv(s) && TickerCan(s)
    ensures Inv(TickerDoes(s))
  {
    hide NextPeriod, NextCount;
    match s.ticker
    case Idle =>
    case RanOut =>
    case Holding =>
    case Counted =>
    case GaveUp =>
    case Finishing =>
  }

  lemma BetweenKeeps(s: System, t: System)
    requires Inv(s) && Between(s, t)
    ensures Inv(t)
  {
    hide NextPeriod, NextCount;
  }

  lemma {:induction false} EveryRunKeepsInv(run: seq<System>, i: nat)
    requires Reaches(run) && i < |run|
    ensures Inv(run[i])
  {
    hide CallerCan, HandlerCan, TickerCan, CallerDoes, HandlerDoes, TickerDoes, Between, Inv, Init;
    if i == 0 {
      InitInv(run[0]);
    } else {
      var s := run[i - 1];
      EveryRunKeepsInv(run, i - 1);
      assert Next(s, run[i - 1 + 1]);
      if CallerCan(s) {
        CallerKeeps(s);
      }
      if HandlerCan(s) {
        HandlerKeeps(s);
      }
      if TickerCan(s) {
        TickerKeeps(s);
      }
      if Between(s, run[i]) {
        BetweenKeeps(s, run[i]);
      }
    }
  }

  lemma InitInv(s: System)
    requires Init(s)
    ensures Inv(s)
  {
  }

  // ----- What the caller may rely on -----

  /** Under every interleaving every call returns disconnected, unmarked and with the roaming flag down. */
  lemma ReturnsDisconnected(run: seq<System>, i: nat)
    requires Reaches(run) && i < |run| && run[i].caller == Returned
    ensures !run[i].connected && !run[i].inProgress && !run[i].started && run[i].handler == Done
  {
    EveryRunKeepsInv(run, i);
  }

  /**
    No deadlock and no lost signal: as long as a call has not returned, the caller or its event's handler can
    move, or the timer's handler holds the mutex and can move on to release it.
  */
  lemma AlwaysMoves(run: seq<System>)
    requires Reaches(run) && run[|run| - 1].caller != Returned && run[|run| - 1].caller != Away
    ensures var s := run[|run| - 1];
      CallerCan(s) || HandlerCan(s) || (s.mutex == TimerThread && TickerCan(s))
  {
    EveryRunKeepsInv(run, |run| - 1);
  }

  ghost predicate RunsSometime(run: seq<System>, from: nat, to: nat)
    requires to < |run|
  {
    exists k :: from <= k <= to && run[k].armed
  }

  /** Between steps j and i the call has returned by step j, and nobody has started anything else. */
  predicate ReturnsAt(run: seq<System>, j: nat, i: nat)
    requires j < i < |run|
  {
    !run[j].caller.Returned? && forall k :: j < k <= i ==> run[k].caller.Returned?
  }

  lemma BetweenDoesNotReturn(s: System, t: System)
    requires Between(s, t) && !s.caller.Returned?
    ensures !t.caller.Returned?
  {
  }

  lemma LastStep(s: System, t: System)
    requires Inv(s) && Next(s, t) && !s.caller.Returned? && t.caller.Returned?
    ensures t.survives == LeavesTimer(s) && t.ranOn == t.armed
  {
    hide HandlerDoes, TickerDoes, CallerDoes, CallerCan, HandlerCan, TickerCan, LeavesTimer, Between;
    hide MutexInv, SignalInv, FlagInv, WillRestart;
    if Between(s, t) {
      BetweenDoesNotReturn(s, t);
    }
  }

  lemma AfterReturn(s: System, t: System)
    requires Inv(s) && Next(s, t) && s.caller.Returned? && t.caller.Returned? && (s.armed ==> s.ranOn)
    ensures t.survives == s.survives && (t.ranOn <==> s.ranOn || t.armed)
  {
    hide NextPeriod, NextCount, WillRestart;
    match s.ticker
    case Idle =>
    case RanOut =>
    case Holding =>
    case Counted =>
    case GaveUp =>
    case Finishing =>
  }

  lemma {:induction false} SinceReturn(run: seq<System>, j: nat, i: nat)
    requires Reaches(run) && j < i < |run| && ReturnsAt(run, j, i)
    ensures run[i].survives == LeavesTimer(run[j]) && (run[i].ranOn <==> RunsSometime(run, j + 1, i))
    decreases i
  {
    hide Next, Init, Inv, LeavesTimer;
    EveryRunKeepsInv(run, i - 1);
    assert Next(run[i - 1], run[i - 1 + 1]);
    if i == j + 1 {
      LastStep(run[j], run[i]);
    } else {
      SinceReturn(run, j, i - 1);
      AfterReturn(run[i - 1], run[i]);
    }
  }

  /**
    Whether the timer itself is stopped for good: once the timer's handler is idle after a return, the timer
    has been running at some time since the return if and only if the caller's last step left it running or
    about to be restarted; otherwise it does not run.
  */
  lemma TimerRunsOnIffLeft(run: seq<System>, j: nat, i: nat)
    requires Reaches(run) && j < i < |run| && ReturnsAt(run, j, i) && run[i].ticker == Idle
    ensures RunsSometime(run, j + 1, i) <==> LeavesTimer(run[j])
  {
    hide Next, Init, LeavesTimer, RunsSometime;
    SinceReturn(run, j, i);
    EveryRunKeepsInv(run, i);
  }

  /** The flag says that the timer runs, is being handled, or is being started. */
  predicate Agrees(s: System) {
    && (s.armed ==> s.ticker.Idle? || s.ticker.Finishing?)
    && (s.started <==> s.armed || s.ticker.RanOut? || s.ticker.Holding? || s.ticker.Counted?
                       || s.handler.Flagged? || s.handler.Timed?)
    && (s.handler.Flagged? || s.handler.Timed? ==> s.ticker.Idle? && !s.armed)
  }

  predicate BeforeStop(c: Caller) {
    !c.ClearedFlag? && !c.Returned? && !c.Away?
  }

  lemma AgreesTicker(s: System)
    requires Inv(s) && Agrees(s) && TickerCan(s)
    ensures Agrees(TickerDoes(s))
  {
    hide NextPeriod, NextCount, WillRestart, LeavesTimer;
    match s.ticker
    case Idle =>
    case RanOut =>
    case Holding =>
    case Counted =>
    case GaveUp =>
    case Finishing =>
  }

  lemma AgreesHandler(s: System)
    requires Inv(s) && Agrees(s) && HandlerCan(s)
    ensures Agrees(HandlerDoes(s))
  {
    hide NextPeriod, NextCount, WillRestart, LeavesTimer;
    match s.handler
    case Unanswered =>
    case Queued =>
    case Entered =>
    case Told =>
    case Signalled =>
    case Unmarked =>
    case Flagged =>
    case Timed =>
    case Restarted =>
    case Done =>
  }

  lemma AgreesCaller(s: System)
    requires Agrees(s)
    ensures BeforeStop(CallerDoes(s).caller) ==> Agrees(CallerDoes(s))
  {
    hide Agrees, CallerDoes, BeforeStop;
    if Waiting(s.caller) {
      AgreesWaiting(s);
    } else if s.caller.SawStarted? || s.caller.ClearedFlag? {
      CallerStops(s);
    } else {
      AgreesWoken(s);
    }
  }

  lemma AgreesWaiting(s: System)
    requires Agrees(s) && Waiting(s.caller)
    ensures Agrees(CallerDoes(s))
  {
    hide LeavesTimer;
    if s.caller.Called? {
    } else if s.caller.Marked? {
    } else {
    }
  }

  lemma AgreesWoken(s: System)
    requires Agrees(s) && !Waiting(s.caller) && !s.caller.SawStarted? && !s.caller.ClearedFlag?
    ensures Agrees(CallerDoes(s))
  {
    hide LeavesTimer;
    if s.caller.Woken? {
    } else if s.caller.PassedMutex? {
    } else {
    }
  }

  lemma CallerStops(s: System)
    requires s.caller.SawStarted? || s.caller.ClearedFlag?
    ensures !BeforeStop(CallerDoes(s).caller)
  {
    hide LeavesTimer;
  }

  lemma NotBetween(s: System, t: System)
    requires BeforeStop(s.caller)
    ensures !Between(s, t)
  {
  }

  lemma AgreesStep(s: System, t: System)
    requires Inv(s) && Agrees(s) && BeforeStop(s.caller) && Next(s, t) && BeforeStop(t.caller)
    ensures Agrees(t)
  {
    hide Inv, Agrees, BeforeStop, Between;
    hide TickerDoes, TickerCan, HandlerDoes, HandlerCan, CallerDoes, CallerCan;
    AgreesCaller(s);
    NotBetween(s, t);
    if TickerCan(s) {
      AgreesTicker(s);
    }
    if HandlerCan(s) {
      AgreesHandler(s);
    }
  }

  /**
    A call that begins with the flag in agreement with the timer never skips a stop that was needed: only a
    timer that an earlier call left behind is missed.
  */
  lemma {:induction false} NothingMissedAtFirst(run: seq<System>, i: nat)
    requires Reaches(run) && Agrees(run[0]) && i < |run| && forall j :: 0 <= j <= i ==> BeforeStop(run[j].caller)
    ensures Agrees(run[i])
    ensures run[i].caller == PassedMutex && !run[i].started ==> !LeavesTimer(run[i])
  {
    hide Next, Inv, Init;
    if i > 0 {
      NothingMissedAtFirst(run, i - 1);
      EveryRunKeepsInv(run, i - 1);
      assert Next(run[i - 1], run[i - 1 + 1]);
      AgreesStep(run[i - 1], run[i]);
    }
  }

  // ----- The handler starts roaming -----

  predicate RoamingOn(s: System) {
    && (s.handler.Flagged? || s.handler.Timed? ==> s.started)
    && (s.handler.Restarted? && s.haveNetwork ==> s.started)
  }

  lemma RoamingOnTicker(s: System)
    requires Inv(s) && RoamingOn(s) && TickerCan(s)
    ensures RoamingOn(TickerDoes(s))
  {
    hide NextPeriod, NextCount;
    match s.ticker
    case Idle =>
    case RanOut =>
    case Holding =>
    case Counted =>
    case GaveUp =>
    case Finishing =>
  }

  lemma RoamingOnHandler(s: System)
    requires Inv(s) && RoamingOn(s) && HandlerCan(s)
    ensures RoamingOn(HandlerDoes(s))
  {
    match s.handler
    case Unanswered =>
    case Queued =>
    case Entered =>
    case Told =>
    case Signalled =>
    case Unmarked =>
    case Flagged =>
    case Timed =>
    case Restarted =>
    case Done =>
  }

  lemma RoamingOnCaller(s: System)
    requires Inv(s) && RoamingOn(s) && CallerCan(s)
    ensures RoamingOn(CallerDoes(s))
  {
    hide LeavesTimer;
    match s.caller
    case Called =>
    case Marked =>
    case Sent =>
    case Woken =>
    case PassedMutex =>
    case SawStarted =>
    case ClearedFlag =>
    case Returned =>
    case Away =>
  }

  lemma RoamingOnBetween(s: System, t: System)
    requires Inv(s) && RoamingOn(s) && Between(s, t)
    ensures RoamingOn(t)
  {
    hide NextPeriod, NextCount;
  }

  /** Under every interleaving, when the handler is about to leave the mutex, roaming is on if there is a network. */
  lemma {:induction false} HandlerStartsRoaming(run: seq<System>, i: nat)
    requires Reaches(run) && i < |run|
    ensures RoamingOn(run[i])
  {
    hide CallerCan, HandlerCan, TickerCan, CallerDoes, HandlerDoes, TickerDoes, Between, RoamingOn, MutexInv;
    if i == 0 {
      assert run[0].handler.Unanswered?;
      NotOnYet(run[0]);
    } else {
      var s := run[i - 1];
      HandlerStartsRoaming(run, i - 1);
      EveryRunKeepsInv(run, i - 1);
      assert Next(s, run[i - 1 + 1]);
      if CallerCan(s) {
        RoamingOnCaller(s);
      }
      if HandlerCan(s) {
        RoamingOnHandler(s);
      }
      if TickerCan(s) {
        RoamingOnTicker(s);
      }
      if Between(s, run[i]) {
        RoamingOnBetween(s, run[i]);
      }
    }
  }

  lemma NotOnYet(s: System)
    requires s.handler.Unanswered?
    ensures RoamingOn(s)
  {
  }

  // ----- The period, with all threads interleaved -----

  /**
    The bounds of the back-off under any interleaving, a stray timer included. A timer that is started while the
    handler of an earlier expiry has yet to run has the shortest period.
  */
  predicate PeriodInv(s: System) {
    && 1 <= s.count <= CNT_FOR_NEXT_PERIOD && AllowedPeriod(s.period)
    && (s.armed || s.ticker.RanOut? || s.ticker.Holding? ==> s.period <= PERIOD_MAX)
    && (s.armed && (s.ticker.RanOut? || s.ticker.Holding?) ==> s.period == PERIOD_DEFAULT)
    && (s.handler.Timed? ==> s.period == PERIOD_DEFAULT)
  }

  lemma PeriodAfterCount(period: nat, count: nat)
    requires 1 <= count <= CNT_FOR_NEXT_PERIOD && AllowedPeriod(period) && period <= PERIOD_MAX
    ensures AllowedPeriod(NextPeriod(period, count)) && 1 <= NextCount(count) <= CNT_FOR_NEXT_PERIOD
    ensures period == PERIOD_DEFAULT ==> NextPeriod(period, count) <= PERIOD_MAX
  {
  }

  lemma PeriodTicker(s: System)
    requires MutexInv(s) && PeriodInv(s) && TickerCan(s)
    ensures PeriodInv(TickerDoes(s))
  {
    hide TickerDoes, NextPeriod, NextCount, AllowedPeriod;
    if s.ticker.Holding? {
      PeriodAfterCount(s.period, s.count);
    }
  }

  lemma PeriodHandler(s: System)
    requires MutexInv(s) && PeriodInv(s) && HandlerCan(s)
    ensures PeriodInv(HandlerDoes(s))
  {
    hide HandlerDoes;
  }

  lemma PeriodCaller(s: System)
    requires PeriodInv(s) && CallerCan(s)
    ensures PeriodInv(CallerDoes(s))
  {
    hide CallerDoes, AllowedPeriod;
  }

  lemma PeriodBetween(s: System, t: System)
    requires Inv(s) && PeriodInv(s) && Between(s, t)
    ensures PeriodInv(t)
  {
    hide NextPeriod, NextCount;
  }

  /** Over every run of calls the period is 5, 10 or 15 s or a multiple of 30 s up to 630 s, and the counter 1..3. */
  lemma {:induction false} EveryRunKeepsPeriod(run: seq<System>, i: nat)
    requires Reaches(run) && PeriodInv(run[0]) && i < |run|
    ensures PeriodInv(run[i])
  {
    hide CallerCan, HandlerCan, TickerCan, CallerDoes, HandlerDoes, TickerDoes, Between, Init, PeriodInv, MutexInv;
    if i > 0 {
      var s := run[i - 1];
      EveryRunKeepsPeriod(run, i - 1);
      EveryRunKeepsInv(run, i - 1);
      assert Next(s, run[i - 1 + 1]);
      if CallerCan(s) {
        PeriodCaller(s);
      }
      if HandlerCan(s) {
        PeriodHandler(s);
      }
      if TickerCan(s) {
        PeriodTicker(s);
      }
      if Between(s, run[i]) {
        PeriodBetween(s, run[i]);
      }
    }
  }

  // ----- Runs in which the timer is left -----

  lemma Join(a: seq<System>, b: seq<System>)
    requires |a| > 0 && |b| > 0 && a[|a| - 1] == b[0] && Steps(a) && Steps(b)
    ensures Steps(a + b[1..])
  {
    hide Next;
    var c := a + b[1..];
    forall i | 0 <= i < |c| - 1
      ensures Next(c[i], c[i + 1])
    {
      if i >= |a| - 1 {
        var k := i - (|a| - 1);
        assert Next(b[k], b[k + 1]);
      }
    }
  }

  /** A call up to the handler's reply. */
  lemma CallThenReply(s: System) returns (run: seq<System>)
    requires s.caller == Called && s.handler == Unanswered && s.mutex == Nobody && !s.inProgress && !s.signal
    ensures |run| == 6 && run[0] == s && Steps(run) && NeverStops(run)
    ensures run[5] == s.(inProgress := true, connected := false, mutex := EventThread, caller := Sent, handler := Told)
  {
    var s1 := s.(inProgress := true, caller := Marked);
    var s2 := s1.(caller := Sent);
    var s3 := s2.(handler := Queued);
    var s4 := s3.(mutex := EventThread, handler := Entered);
    var s5 := s4.(connected := false, handler := Told);
    run := [s, s1, s2, s3, s4, s5];
  }

  /** The rest of the handler, when it has no roaming to start. */
  lemma ReplyThenDone(s: System) returns (run: seq<System>)
    requires s.caller == Sent && s.handler == Told && s.inProgress && (s.started || !s.haveNetwork)
    ensures |run| == 5 && run[0] == s && Steps(run) && NeverStops(run)
    ensures run[4] == s.(inProgress := false, signal := true, mutex := Nobody, handler := Done)
  {
    var s1 := s.(signal := true, handler := Signalled);
    var s2 := s1.(inProgress := false, handler := Unmarked);
    var s3 := s2.(handler := Restarted);
    var s4 := s3.(mutex := Nobody, handler := Done);
    run := [s, s1, s2, s3, s4];
  }

  /** No stop of the timer in these states. */
  predicate NeverStops(run: seq<System>) {
    forall j :: 0 <= j < |run| ==> run[j].caller != ClearedFlag
  }

  lemma CallThenEvent(s: System) returns (run: seq<System>)
    requires s.caller == Called && s.handler == Unanswered && s.mutex == Nobody && !s.inProgress && !s.signal
    requires s.started || !s.haveNetwork
    ensures |run| == 10 && run[0] == s && Steps(run) && NeverStops(run)
    ensures run[9] == s.(connected := false, signal := true, caller := Sent, handler := Done)
  {
    hide Steps;
    var first := CallThenReply(s);
    var second := ReplyThenDone(first[5]);
    Join(first, second);
    run := first + second[1..];
  }

  /** The timer runs out between the caller's passing the mutex and its stop. */
  lemma TimerRunsOut(s: System) returns (run: seq<System>)
    requires s.signal && s.caller == Sent && s.mutex == Nobody && s.ticker == Idle && s.started && s.armed
    requires s.period == 5000 && s.count == 1 && !s.survives
    ensures |run| == 7 && run[0] == s && Steps(run)
    ensures run[6] == s.(signal := false, caller := Returned, ticker := RanOut, started := false, armed := false,
      survives := true)
  {
    hide Steps;
    var first := WakeThenRanOut(s);
    var second := StopTooEarly(first[3]);
    Join(first, second);
    run := first + second[1..];
  }

  lemma WakeThenRanOut(s: System) returns (run: seq<System>)
    requires s.signal && s.caller == Sent && s.mutex == Nobody && s.ticker == Idle && s.armed
    ensures |run| == 4 && run[0] == s && Steps(run)
    ensures run[3] == s.(signal := false, caller := PassedMutex, ticker := RanOut, armed := false)
  {
    var s1 := s.(signal := false, caller := Woken);
    var s2 := s1.(caller := PassedMutex);
    var s3 := s2.(armed := false, ticker := RanOut);
    run := [s, s1, s2, s3];
  }

  /** The stop comes before the restart that is under way. */
  lemma StopTooEarly(s: System) returns (run: seq<System>)
    requires s.caller == PassedMutex && s.ticker == RanOut && s.started && !s.armed && s.period == 5000 && s.count == 1
    ensures |run| == 4 && run[0] == s && Steps(run)
    ensures run[3] == s.(caller := Returned, started := false, survives := true)
  {
    var s1 := s.(caller := SawStarted);
    var s2 := s1.(started := false, caller := ClearedFlag);
    var s3 := s2.(survives := true, caller := Returned);
    run := [s, s1, s2, s3];
  }

  lemma TimerCarriesOn(s: System) returns (run: seq<System>)
    requires s.caller == Returned && s.mutex == Nobody && s.ticker == RanOut && s.period == 5000 && s.count == 1
    ensures |run| == 5 && run[0] == s && Steps(run)
    ensures run[4] == s.(period := 5000, count := 2, armed := true, ranOn := true, ticker := Idle)
  {
    var s1 := s.(mutex := TimerThread, ticker := Holding);
    var s2 := s1.(count := 2, ticker := Counted);
    var s3 := s2.(armed := true, ranOn := true, ticker := Finishing);
    var s4 := s3.(mutex := Nobody, ticker := Idle);
    run := [s, s1, s2, s3, s4];
  }

  /** A state after a return in which the flag is down and the timer runs. */
  predicate StrayTimer(s: System) {
    && s.caller == Returned && s.handler == Done && s.mutex == Nobody && s.ticker == Idle
    && !s.started && s.armed && !s.inProgress && !s.signal
  }

  /** A first call, with flag and timer in agreement, after which the flag is down and the timer runs. */
  lemma TimerMaySurvive() returns (run: seq<System>)
    ensures Reaches(run) && Agrees(run[0]) && StrayTimer(run[|run| - 1])
  {
    hide Next, Steps;
    var s := System(false, false, false, Nobody, Called, Unanswered, Idle, true, 5000, 1, true, true, false, false);
    var first := CallThenEvent(s);
    var second := TimerRunsOut(first[9]);
    var third := TimerCarriesOn(second[6]);
    Join(first, second);
    Join(first + second[1..], third);
    run := first + second[1..] + third[1..];
  }

  /** Leaving, clearing the network as the caller of wmi_disconnect does, and calling again. */
  lemma CallAgain(s: System) returns (run: seq<System>)
    requires s.caller == Returned
    ensures |run| == 4 && run[0] == s && Steps(run)
    ensures run[3] == s.(caller := Called, handler := Unanswered, haveNetwork := false, survives := false,
      ranOn := false)
  {
    var s1 := s.(caller := Away, survives := false, ranOn := false);
    var s2 := s1.(haveNetwork := false);
    var s3 := s2.(caller := Called, handler := Unanswered);
    run := [s, s1, s2, s3];
  }

  /** The caller finds the flag down and does not look at the timer. */
  lemma StopSkipped(s: System) returns (run: seq<System>)
    requires s.signal && s.caller == Sent && s.mutex == Nobody && !s.started && s.armed
    ensures |run| == 4 && run[0] == s && Steps(run) && NeverStops(run)
    ensures run[3] == s.(signal := false, caller := Returned, survives := true, ranOn := true)
  {
    var s1 := s.(signal := false, caller := Woken);
    var s2 := s1.(caller := PassedMutex);
    var s3 := s2.(caller := Returned, survives := true, ranOn := true);
    run := [s, s1, s2, s3];
  }

  /** The timer that one call has left behind is missed by the next one: it still runs when that returns. */
  lemma StrayTimerIsMissed() returns (run: seq<System>, i: nat)
    ensures Reaches(run) && i < |run| && run[i].caller == Called && !run[i].started && run[i].armed
    ensures StrayTimer(run[|run| - 1]) && forall j :: i <= j < |run| ==> run[j].caller != ClearedFlag
  {
    hide Next, Steps, Init;
    var first := TimerMaySurvive();
    var again := CallAgain(first[|first| - 1]);
    var event := CallThenEvent(again[3]);
    var skip := StopSkipped(event[9]);
    var a := first + again[1..];
    var b := a + event[1..];
    Join(first, again);
    Join(a, event);
    Join(b, skip);
    run, i := b + skip[1..], |a| - 1;
    forall j | i <= j < |run|
      ensures run[j].caller != ClearedFlag
    {
      if j < |b| {
        assert run[j] == b[j] == event[j - i];
      } else {
        assert run[j] == skip[j - |b| + 1];
      }
    }
  }
}
