/**
  Reconnecting after a lost connection (drivers/wlan/wlan_drv.c): a one-shot timer whose handler tries to
  connect, restarts the timer, and after every third attempt lengthens the period, until the period exceeds
  ten minutes. The attempt counter is a static variable that survives from one episode to the next.
*/
module Roaming {

  const PERIOD_DEFAULT: nat := 5000
  const PERIOD_INCREASE1: nat := 5000
  const PERIOD_INCREASE2: nat := 15000
  const PERIOD_INCREASE3: nat := 30000
  const PERIOD_MAX: nat := 600000
  const CNT_FOR_NEXT_PERIOD: nat := 3

  const WPA_PSK_AUTH: nat := 0x08
  const WPA2_PSK_AUTH: nat := 0x10
  const WPA3_SHA256_AUTH: nat := 0x80

  /** Authentication modes for which the passphrase is sent before connecting. */
  predicate NeedsPassphrase(auth: nat) {
    auth == WPA_PSK_AUTH || auth == WPA2_PSK_AUTH || auth == WPA3_SHA256_AUTH
    || auth == WPA2_PSK_AUTH + WPA3_SHA256_AUTH
  }

  /** A command sent to the firmware. */
  datatype Command = SetPassphrase | Connect

  function Attempt(auth: nat): seq<Command> {
    if NeedsPassphrase(auth) then [SetPassphrase, Connect] else [Connect]
  }

  function Longer(period: nat): (r: nat)
    ensures r > period
  {
    if period < PERIOD_INCREASE2 then period + PERIOD_INCREASE1
    else if period < PERIOD_INCREASE3 then period + PERIOD_INCREASE2
    else period + PERIOD_INCREASE3
  }

  /** The flag, the period, the static counter, whether the timer is running, and the commands sent. */
  datatype State = State(started: bool, period: nat, count: nat, armed: bool, sent: seq<Command>)

  function NextPeriod(period: nat, count: nat): nat {
    if count >= CNT_FOR_NEXT_PERIOD then Longer(period) else period
  }

  function NextCount(count: nat): nat {
    (if count >= CNT_FOR_NEXT_PERIOD then 0 else count) + 1
  }

  /** One expiry of the timer. */
  function Expire(s: State, auth: nat): State {
    var period := NextPeriod(s.period, s.count);
    if period <= PERIOD_MAX then State(s.started, period, NextCount(s.count), true, s.sent + Attempt(auth))
    else State(false, period, NextCount(s.count), false, s.sent)
  }

  function Start(s: State, haveNetwork: bool): State {
    if !s.started && haveNetwork then s.(started := true, period := PERIOD_DEFAULT, armed := true) else s
  }

  function Stop(s: State): State {
    if s.started then s.(started := false, armed := false) else s
  }

  class Roamer {
    var started: bool
    var period: nat
    var count: nat
    var armed: bool
    var sent: seq<Command>

    function Now(): State
      reads this
    {
      State(started, period, count, armed, sent)
    }

    constructor ()
      ensures Now() == State(false, PERIOD_DEFAULT, 1, false, []) && Inv(Now())
    {
      started, period, count, armed, sent := false, PERIOD_DEFAULT, 1, false, [];
    }

    /** wlan_drv_roaming_timer_handler, for a timer that has just run out. */
    method TimerHandler(auth: nat)
      requires Bounded(Now()) && armed
      modifies this
      ensures Now() == Expire(old(Now()), auth) && Bounded(Now()) && (Inv(old(Now())) ==> Inv(Now()))
    {
      BoundedKept(Now(), Timeout(auth));
      if count >= CNT_FOR_NEXT_PERIOD {
        count := 0;
        if period < PERIOD_INCREASE2 {
          period := period + PERIOD_INCREASE1;
        } else if period < PERIOD_INCREASE3 {
          period := period + PERIOD_INCREASE2;
        } else {
          period := period + PERIOD_INCREASE3;
        }
      }
      count := count + 1;
      if period <= PERIOD_MAX {
        if NeedsPassphrase(auth) {
          sent := sent + [SetPassphrase];
        }
        sent := sent + [Connect];
        armed := true;
      } else {
        started := false;
        armed := false;
      }
    }

    /** wlan_drv_roaming_start; a network name must be configured. */
    method RoamingStart(ssidLength: nat)
      requires Bounded(Now())
      modifies this
      ensures Now() == Start(old(Now()), ssidLength != 0) && Bounded(Now()) && (Inv(old(Now())) ==> Inv(Now()))
    {
      if !started && ssidLength != 0 {
        started := true;
        period := PERIOD_DEFAULT;
        armed := true;
      }
    }

    /** wlan_drv_roaming_stop. */
    method RoamingStop()
      requires Bounded(Now())
      modifies this
      ensures Now() == Stop(old(Now())) && Bounded(Now()) && (Inv(old(Now())) ==> Inv(Now()))
    {
      if started {
        started := false;
        armed := false;
      }
    }
  }

  // ----- Every run -----

  datatype Event = Timeout(auth: nat) | Begin(haveNetwork: bool) | End

  /** The timer runs out only while it is running. */
  predicate Possible(s: State, e: Event) {
    e.Timeout? ==> s.armed
  }

  function After(s: State, e: Event): State {
    match e
    case Timeout(auth) => Expire(s, auth)
    case Begin(haveNetwork) => Start(s, haveNetwork)
    case End => Stop(s)
  }

  predicate Feasible(s: State, events: seq<Event>)
    decreases |events|
  {
    events == [] || (Possible(s, events[0]) && Feasible(After(s, events[0]), events[1..]))
  }

  function Run(s: State, events: seq<Event>): State
    decreases |events|
  {
    if events == [] then s else Run(After(s, events[0]), events[1..])
  }

  predicate AllowedPeriod(p: nat) {
    p == 5000 || p == 10000 || p == 15000 || (p % 30000 == 0 && 30000 <= p <= 630000)
  }

  /** The counter stays within 1..3 and the period among those allowed, whatever the flag says about the timer. */
  predicate Bounded(s: State) {
    && 1 <= s.count <= CNT_FOR_NEXT_PERIOD && AllowedPeriod(s.period) && (s.armed ==> s.period <= PERIOD_MAX)
  }

  /** Besides, the flag says whether the timer runs. */
  predicate Inv(s: State) {
    Bounded(s) && (s.started <==> s.armed)
  }

  lemma BoundedKept(s: State, e: Event)
    requires Bounded(s) && Possible(s, e)
    ensures Bounded(After(s, e)) && (Inv(s) ==> Inv(After(s, e)))
  {
  }

  /** Over every run of whole calls the bounds are kept, and so is the agreement of flag and timer once it holds. */
  lemma {:induction false} EveryRunKeepsInv(s: State, events: seq<Event>)
    requires Bounded(s) && Feasible(s, events)
    ensures Bounded(Run(s, events)) && (Inv(s) ==> Inv(Run(s, events)))
    decreases |events|
  {
    if events != [] {
      BoundedKept(s, events[0]);
      EveryRunKeepsInv(After(s, events[0]), events[1..]);
    }
  }

  // ----- One episode -----

  /** The period on each level of the back-off. */
  function LevelPeriod(level: nat): nat {
    if level == 0 then 5000
    else if level == 1 then 10000
    else if level == 2 then 15000
    else 30000 * (level - 2)
  }

  lemma NextLevel(level: nat)
    ensures Longer(LevelPeriod(level)) == LevelPeriod(level + 1)
    ensures LevelPeriod(level) <= PERIOD_MAX <==> level <= 22
  {
  }

  /** Back-to-back expiries with the given authentication modes. */
  function Expiries(s: State, auths: seq<nat>): State
    decreases |auths|
  {
    if auths == [] then s else Expire(Expiries(s, auths[..|auths| - 1]), auths[|auths| - 1])
  }

  function Attempts(auths: seq<nat>): seq<Command>
    decreases |auths|
  {
    if auths == [] then [] else Attempts(auths[..|auths| - 1]) + Attempt(auths[|auths| - 1])
  }

  predicate EpisodeBegins(s: State) {
    s.started && s.armed && s.period == PERIOD_DEFAULT && 1 <= s.count <= CNT_FOR_NEXT_PERIOD
  }

  /** The state after n <= 69 - c expiries in closed form: every expiry makes an attempt. */
  lemma {:induction false} EpisodeInClosedForm(s: State, auths: seq<nat>)
    requires EpisodeBegins(s) && |auths| <= 69 - s.count
    ensures var k := s.count + |auths| - 1;
      Expiries(s, auths) == State(true, LevelPeriod(k / 3), k % 3 + 1, true, s.sent + Attempts(auths))
    decreases |auths|
  {
    hide Longer, Attempt;
    if auths != [] {
      var before, k := auths[..|auths| - 1], s.count + |auths| - 1;
      EpisodeInClosedForm(s, before);
      NextLevel((k - 1) / 3);
      NextLevel(k / 3);
      assert s.sent + Attempts(auths) == s.sent + Attempts(before) + Attempt(auths[|auths| - 1]);
      assert if (k - 1) % 3 == 2 then k / 3 == (k - 1) / 3 + 1 && k % 3 == 0
        else k / 3 == (k - 1) / 3 && k % 3 == (k - 1) % 3 + 1;
    } else {
      assert Expiries(s, auths).sent == s.sent + Attempts(auths);
    }
  }

  /**
    An undisturbed episode makes exactly 69 - c attempts and then ends itself, at a period of 630 s. The
    counter is left at 1, so that an episode after a completed one makes 68 attempts.
  */
  lemma EpisodeEnds(s: State, auths: seq<nat>, last: nat)
    requires EpisodeBegins(s) && |auths| == 69 - s.count
    ensures Expiries(s, auths).armed && Expiries(s, auths).sent == s.sent + Attempts(auths)
    ensures Expiries(s, auths + [last]) == State(false, 630000, 1, false, s.sent + Attempts(auths))
    ensures EpisodeBegins(Start(Expiries(s, auths + [last]), true))
  {
    EpisodeInClosedForm(s, auths);
    assert (auths + [last])[..|auths|] == auths;
  }

  /** The authentication modes of a run's expiries. */
  function Modes(events: seq<Event>): seq<nat>
    decreases |events|
  {
    if events == [] then []
    else
      var rest := Modes(events[..|events| - 1]);
      var e := events[|events| - 1];
      if e.Timeout? then rest + [e.auth] else rest
  }

  predicate NeverEnds(events: seq<Event>) {
    forall e <- events :: !e.End?
  }

  lemma {:induction false} RunOneMore(s: State, events: seq<Event>, e: Event)
    ensures Run(s, events + [e]) == After(Run(s, events), e)
    decreases |events|
  {
    if events != [] {
      assert (events + [e])[1..] == events[1..] + [e];
      RunOneMore(After(s, events[0]), events[1..], e);
    } else {
      assert (events + [e])[1..] == [];
    }
  }

  /** Calls that start roaming during an episode change nothing: only the expiries count. */
  lemma {:induction false} StartsDoNotReset(s: State, events: seq<Event>)
    requires EpisodeBegins(s) && NeverEnds(events) && |Modes(events)| <= 69 - s.count
    ensures Run(s, events) == Expiries(s, Modes(events)) && Run(s, events).started
    decreases |events|
  {
    hide Expire, Attempts, LevelPeriod, Run, EpisodeBegins;
    EpisodeGoesOn(s, Modes(events));
    if events == [] {
      RunOfNone(s);
    } else {
      var before, e := events[..|events| - 1], events[|events| - 1];
      assert events == before + [e];
      StartsDoNotReset(s, before);
      RunOneMore(s, before, e);
      if e.Timeout? {
        assert Modes(events)[..|Modes(events)| - 1] == Modes(before);
      }
    }
  }

  lemma EpisodeGoesOn(s: State, auths: seq<nat>)
    requires EpisodeBegins(s) && |auths| <= 69 - s.count
    ensures Expiries(s, auths).started
  {
    EpisodeInClosedForm(s, auths);
  }

  lemma RunOfNone(s: State)
    ensures Run(s, []) == s
  {
  }

  // ----- What the calls do -----

  /** Stopping ends the episode for good: the timer does not run, so that nothing more is sent until the next start. */
  lemma StopEndsEpisode(s: State, events: seq<Event>)
    requires Inv(s) && Feasible(Stop(s), events) && forall e <- events :: !e.Begin?
    ensures !Stop(s).started && !Stop(s).armed && Stop(s).sent == s.sent && Stop(s).count == s.count
    ensures Run(Stop(s), events) == Stop(s)
  {
    StoppedStays(Stop(s), events);
  }

  lemma {:induction false} StoppedStays(s: State, events: seq<Event>)
    requires !s.started && !s.armed && Feasible(s, events) && forall e <- events :: !e.Begin?
    ensures Run(s, events) == s
    decreases |events|
  {
    if events != [] {
      assert events[0] in events;
      StoppedStays(s, events[1..]);
    }
  }

  /** Starting needs a network and no episode under way; then the first expiry is 5 s away. */
  lemma StartBeginsEpisode(s: State, haveNetwork: bool)
    requires Inv(s)
    ensures Start(s, haveNetwork).armed <==> s.armed || haveNetwork
    ensures Start(s, haveNetwork) == s || (EpisodeBegins(Start(s, haveNetwork)) && Start(s, haveNetwork).period == 5000)
    ensures Start(s, haveNetwork).sent == s.sent && Start(s, haveNetwork).count == s.count
  {
  }

  /** An attempt sends the passphrase first for the modes 0x08, 0x10, 0x80 and 0x90, and always connects last. */
  lemma CommandsOfAttempt(auth: nat)
    ensures Attempt(auth) ==
      if auth == 8 || auth == 16 || auth == 128 || auth == 144 then [SetPassphrase, Connect] else [Connect]
  {
  }

  /** So an expiry within the periods sends exactly these, and one beyond them sends nothing. */
  lemma ExpirySends(s: State, auth: nat)
    ensures Expire(s, auth).armed ==> Expire(s, auth).sent == s.sent + Attempt(auth) && Expire(s, auth).period <= 600000
    ensures !Expire(s, auth).armed ==> Expire(s, auth).sent == s.sent && Expire(s, auth).period > 600000
  {
  }
}
