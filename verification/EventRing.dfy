/**
  How firmware events reach the driver's handlers (wmi_event_relay, wmi_event_notify, wmi_cmd_result and
  wmi_event_buf_free in drivers/wlan/wmi_api.c). A relay copies the payload into a slot of one of two rings,
  then sends a message with the slot's address through a FIFO queue; the dispatcher takes the messages, lets
  a handler read the payload and gives one slot back. Every step below is one atomic action, so a run is any
  interleaving of relaying tasks and the dispatcher.
*/
module EventRing {
  import opened Basics
  import opened Bytes

  /** wlan_evt_payload_t: buf_num slots of buf_length bytes, buf_used and buf_write_pointer. */
  datatype Pool = Pool(length: nat, slots: seq<seq<byte>>, used: int, write: nat) {
    ghost predicate Shaped() {
      0 < |slots| && write < |slots| && forall i :: 0 <= i < |slots| ==> |slots[i]| == length
    }
  }

  /** A message in flight: what was relayed into its slot, and how many relays its ring had before. */
  datatype Message = Message(large: bool, slot: nat, payload: seq<byte>, born: nat)

  /**
    `written` are relays between their copy and their send, each by a task of its own. What happened so far:
    the payloads accepted and handled, the relays of each ring, and those of them with a bad event id.
  */
  datatype State = State(
    large: Pool, small: Pool,
    written: seq<Message>, queue: seq<Message>, handling: Option<Message>,
    accepted: seq<seq<byte>>, finished: seq<seq<byte>>,
    relaysLarge: nat, relaysSmall: nat, leakedLarge: nat, leakedSmall: nat)
  {
    function PoolOf(isLarge: bool): Pool {
      if isLarge then large else small
    }

    function WithPool(isLarge: bool, p: Pool): State {
      if isLarge then this.(large := p) else this.(small := p)
    }

    function Relays(isLarge: bool): nat {
      if isLarge then relaysLarge else relaysSmall
    }

    function Leaked(isLarge: bool): nat {
      if isLarge then leakedLarge else leakedSmall
    }

    /** All messages whose slot has not been given back, oldest first. */
    function InFlight(): seq<Message> {
      (if handling.Some? then [handling.value] else []) + queue + written
    }
  }

  // ----- The two critical sections -----

  /** The copy into the slot at the write pointer; the tail of the slot keeps its old bytes. */
  function Write(p: Pool, data: seq<byte>): (r: Pool)
    requires p.Shaped() && |data| <= p.length
    ensures r.Shaped() && |r.slots| == |p.slots| && r.length == p.length
  {
    var slot := data + p.slots[p.write][|data|..];
    p.(slots := p.slots[p.write := slot], write := (p.write + 1) % |p.slots|, used := p.used + 1)
  }

  /** Which ring a payload of n bytes goes to, if any. */
  function Target(s: State, n: nat): Option<bool> {
    if n > s.large.length then None else Some(n > s.small.length)
  }

  // ----- Steps -----

  datatype Step =
    | Relay(data: seq<byte>, validId: bool)
    | Send(j: nat)
    | Dispatch
    | Free

  ghost predicate Next(s: State, step: Step, s': State) {
    s.large.Shaped() && s.small.Shaped() &&
    match step
    case Relay(data, validId) =>
      if Accepting(s, data).None? then s' == s else RelayInto(s, Accepting(s, data).value, data, validId, s')
    case Send(j) =>
      && j < |s.written|
      && s' == s.(queue := s.queue + [s.written[j]], written := s.written[..j] + s.written[j + 1..])
    case Dispatch => s.handling.None? && s.queue != [] && s' == s.(handling := Some(s.queue[0]), queue := s.queue[1..])
    case Free =>
      && s.handling.Some?
      && var m := s.handling.value;
      var p := s.PoolOf(m.large);
      s' == s.WithPool(m.large, p.(used := p.used - 1)).(handling := None, finished := s.finished + [m.payload])
  }

  ghost predicate RelayInto(s: State, isLarge: bool, data: seq<byte>, validId: bool, s': State)
    requires s.PoolOf(isLarge).Shaped()
  {
    var p := s.PoolOf(isLarge);
    && |data| <= p.length
    && var t := Copied(s, isLarge, data);
    if validId then s' == t.(written := s.written + [NewMessage(s, isLarge, data)], accepted := s.accepted + [data])
    else if isLarge then s' == t.(leakedLarge := s.leakedLarge + 1)
    else s' == t.(leakedSmall := s.leakedSmall + 1)
  }

  /** The state after the copy, and the message for it. */
  function Copied(s: State, isLarge: bool, data: seq<byte>): State
    requires s.PoolOf(isLarge).Shaped() && |data| <= s.PoolOf(isLarge).length
  {
    var t := s.WithPool(isLarge, Write(s.PoolOf(isLarge), data));
    if isLarge then t.(relaysLarge := s.relaysLarge + 1) else t.(relaysSmall := s.relaysSmall + 1)
  }

  function NewMessage(s: State, isLarge: bool, data: seq<byte>): Message {
    Message(isLarge, s.PoolOf(isLarge).write, data, s.Relays(isLarge))
  }

  /** The ring that a relay of the data would be accepted into. */
  function Accepting(s: State, data: seq<byte>): Option<bool> {
    var target := Target(s, |data|);
    if target.Some? && s.PoolOf(target.value).used < |s.PoolOf(target.value).slots| then target else None
  }

  // ----- Which ring an event goes to -----

  /** The payload is in the slot that was next, the others are as they were, and one more slot is used. */
  ghost predicate TakenBy(p: Pool, data: seq<byte>, q: Pool) {
    && p.write < |p.slots| == |q.slots| && q.used == p.used + 1 && q.length == p.length
    && |data| <= |q.slots[p.write]| && q.slots[p.write][..|data|] == data
    && (forall i :: 0 <= i < |p.slots| && i != p.write ==> q.slots[i] == p.slots[i])
    && q.write == if p.write + 1 == |p.slots| then 0 else p.write + 1
  }

  lemma WriteTakes(p: Pool, data: seq<byte>)
    requires p.Shaped() && |data| <= p.length
    ensures TakenBy(p, data, Write(p, data))
  {
    assert (data + p.slots[p.write][|data|..])[..|data|] == data;
    if p.write + 1 < |p.slots| {
      Modulo(p.write + 1, |p.slots|, 0, p.write + 1);
    } else {
      Modulo(p.write + 1, |p.slots|, 1, 0);
    }
  }

  /**
    A payload that fits a small slot goes to the small ring: the large one stays as it is, and the small one takes
    the payload exactly when it has a free slot.
  */
  lemma SmallEventsTakeSmallSlots(s: State, data: seq<byte>, validId: bool, s': State)
    requires Next(s, Relay(data, validId), s') && |data| <= s.small.length && |data| <= s.large.length
    ensures s'.large == s.large
    ensures if s.small.used < |s.small.slots| then TakenBy(s.small, data, s'.small) else s' == s
  {
    hide Write;
    WriteTakes(s.small, data);
  }

  /** A larger payload goes to the large ring, under the same condition; one that fits neither is dropped. */
  lemma LargeEventsTakeLargeSlots(s: State, data: seq<byte>, validId: bool, s': State)
    requires Next(s, Relay(data, validId), s') && s.small.length < |data|
    ensures s'.small == s.small
    ensures if |data| <= s.large.length && s.large.used < |s.large.slots| then TakenBy(s.large, data, s'.large)
            else s' == s
  {
    hide Write;
    if |data| <= s.large.length {
      WriteTakes(s.large, data);
    }
  }

  /** What a relay sends: nothing for a bad event id, and otherwise one message for the slot, behind the others. */
  lemma RelaySends(s: State, data: seq<byte>, validId: bool, s': State)
    requires Next(s, Relay(data, validId), s') && s' != s
    ensures s'.queue == s.queue && s'.handling == s.handling
    ensures if !validId then s'.written == s.written
            else |s'.written| == |s.written| + 1 && s'.written[..|s.written|] == s.written
                 && var m := s'.written[|s.written|];
                 && m.large == (|data| > s.small.length) && m.payload == data
                 && m.slot == if |data| > s.small.length then s.large.write else s.small.write
  {
    hide Write;
  }

  // ----- Sends in the order of the copies: the invariant -----

  /** A single relaying task sends each message before it copies the next one. */
  predicate SendsInOrder(step: Step) {
    step.Send? ==> step.j == 0
  }

  /** How many writes ago a slot was written: 1 for the slot just behind the write pointer. */
  function Age(p: Pool, slot: nat): (r: int)
    requires p.write < |p.slots| && slot < |p.slots|
    ensures 1 <= r <= |p.slots|
  {
    if slot < p.write then p.write - slot else p.write + |p.slots| - slot
  }

  /** The slot of m lies among the used slots behind the write pointer and still holds what was relayed. */
  ghost predicate Intact(p: Pool, m: Message)
    requires p.Shaped()
  {
    && m.slot < |p.slots| && Age(p, m.slot) <= p.used
    && |m.payload| <= p.length && p.slots[m.slot][..|m.payload|] == m.payload
  }

  /** Messages of one ring, oldest first, sit in slots of strictly falling age. */
  ghost predicate Ordered(s: State, ms: seq<Message>)
    requires s.large.Shaped() && s.small.Shaped()
  {
    forall i, j :: 0 <= i < j < |ms| ==> Older(s, ms[i], ms[j])
  }

  ghost predicate Older(s: State, m: Message, n: Message)
    requires s.large.Shaped() && s.small.Shaped()
  {
    var p := s.PoolOf(m.large);
    m.large == n.large && m.slot < |p.slots| && n.slot < |p.slots| ==> Age(p, m.slot) > Age(p, n.slot)
  }

  ghost predicate AllIntact(s: State, ms: seq<Message>)
    requires s.large.Shaped() && s.small.Shaped()
  {
    forall i :: 0 <= i < |ms| ==> Intact(s.PoolOf(ms[i].large), ms[i])
  }

  function Count(ms: seq<Message>, isLarge: bool): nat {
    if ms == [] then 0 else (if ms[0].large == isLarge then 1 else 0) + Count(ms[1..], isLarge)
  }

  ghost predicate Inv(s: State) {
    && s.large.Shaped() && s.small.Shaped() && s.large.used <= |s.large.slots| && s.small.used <= |s.small.slots|
    && AllIntact(s, s.InFlight()) && Ordered(s, s.InFlight())
    && s.large.used == Count(s.InFlight(), true) + s.leakedLarge
    && s.small.used == Count(s.InFlight(), false) + s.leakedSmall
    && s.accepted == s.finished + Payloads(s.InFlight())
  }

  function Payloads(ms: seq<Message>): (r: seq<seq<byte>>)
    ensures |r| == |ms|
  {
    seq(|ms|, i requires 0 <= i < |ms| => ms[i].payload)
  }

  ghost predicate Init(s: State) {
    && s.large.Shaped() && s.small.Shaped() && s.large.used == 0 == s.small.used
    && s.written == [] == s.queue && s.handling.None? && s.accepted == [] == s.finished
    && s.large.write == 0 == s.small.write && s.relaysLarge == 0 == s.relaysSmall
    && s.leakedLarge == 0 == s.leakedSmall
  }

  lemma InitInv(s: State)
    requires Init(s)
    ensures Inv(s)
  {
    assert s.InFlight() == [];
  }

  /** A write makes every other slot one older, and touches no slot that is still in use. */
  lemma WriteAges(p: Pool, data: seq<byte>, slot: nat)
    requires p.Shaped() && |data| <= p.length && slot < |p.slots|
    ensures var q := Write(p, data);
            if slot == p.write then Age(q, slot) == 1 && q.slots[slot][..|data|] == data
            else Age(q, slot) == Age(p, slot) + 1 && q.slots[slot] == p.slots[slot] && Age(p, slot) < |p.slots|
  {
    assert (data + p.slots[p.write][|data|..])[..|data|] == data;
    if p.write + 1 == |p.slots| {
      assert (p.write + 1) % |p.slots| == 0;
    } else {
      assert (p.write + 1) % |p.slots| == p.write + 1;
    }
  }

  lemma IntactAfterWrite(p: Pool, data: seq<byte>, m: Message)
    requires p.Shaped() && |data| <= p.length && p.used < |p.slots| && Intact(p, m)
    ensures Intact(Write(p, data), m) && Age(Write(p, data), m.slot) == Age(p, m.slot) + 1
  {
    WriteAges(p, data, m.slot);
  }

  lemma {:induction false} CountAppend(ms: seq<Message>, m: Message, k: bool)
    ensures Count(ms + [m], k) == Count(ms, k) + if m.large == k then 1 else 0
  {
    if ms == [] {
      assert [m][1..] == [];
    } else {
      assert (ms + [m])[1..] == ms[1..] + [m];
      CountAppend(ms[1..], m, k);
    }
  }

  /** What a write does to the messages that are already in flight. */
  lemma WriteKeeps(s: State, isLarge: bool, data: seq<byte>, t: State)
    requires Inv(s) && s.PoolOf(isLarge).used < |s.PoolOf(isLarge).slots| && |data| <= s.PoolOf(isLarge).length
    requires t == Copied(s, isLarge, data)
    ensures t.InFlight() == s.InFlight()
    ensures AllIntact(t, s.InFlight()) && Ordered(t, s.InFlight())
    ensures forall m :: m in s.InFlight() ==> Older(t, m, NewMessage(s, isLarge, data))
  {
    hide Count, Payloads, Write, State.InFlight;
    var ms := s.InFlight();
    forall i | 0 <= i < |ms|
      ensures Intact(t.PoolOf(ms[i].large), ms[i])
      ensures ms[i].large == isLarge ==> Age(t.PoolOf(isLarge), ms[i].slot) == Age(s.PoolOf(isLarge), ms[i].slot) + 1
    {
      if ms[i].large == isLarge {
        IntactAfterWrite(s.PoolOf(isLarge), data, ms[i]);
      }
    }
    assert forall i, j :: 0 <= i < j < |ms| ==> Older(s, ms[i], ms[j]);
    WriteAges(s.PoolOf(isLarge), data, s.PoolOf(isLarge).write);
    assert t.InFlight() == ms by { SameFlight(s, t); }
  }

  lemma SameFlight(s: State, t: State)
    requires t.handling == s.handling && t.queue == s.queue && t.written == s.written
    ensures t.InFlight() == s.InFlight()
  {
  }

  lemma FlightAppend(s: State, t: State, m: Message)
    requires t.handling == s.handling && t.queue == s.queue && t.written == s.written + [m]
    ensures t.InFlight() == s.InFlight() + [m]
  {
  }

  lemma PayloadsAppend(ms: seq<Message>, m: Message)
    ensures Payloads(ms + [m]) == Payloads(ms) + [m.payload]
  {
  }

  lemma RelayKeeps(s: State, isLarge: bool, data: seq<byte>, validId: bool, s': State)
    requires Inv(s) && s.PoolOf(isLarge).used < |s.PoolOf(isLarge).slots| && RelayInto(s, isLarge, data, validId, s')
    ensures Inv(s')
    ensures s'.InFlight() == if validId then s.InFlight() + [NewMessage(s, isLarge, data)] else s.InFlight()
  {
    hide Count, Payloads, State.InFlight, Intact, Older, Write, Ordered, AllIntact;
    var p := s.PoolOf(isLarge);
    var t := Copied(s, isLarge, data);
    var m, ms := NewMessage(s, isLarge, data), s.InFlight();
    WriteKeeps(s, isLarge, data, t);
    WriteUsed(p, data);
    if validId {
      FlightAppend(s, s', m);
      CountAppend(ms, m, true);
      CountAppend(ms, m, false);
      PayloadsAppend(ms, m);
      NewIntact(p, data, m);
      AppendIntact(t, ms, m);
      SamePools(t, s', ms + [m]);
      assert s.finished + Payloads(ms) + [data] == s.finished + (Payloads(ms) + [data]);
    } else {
      SameFlight(t, s');
      SamePools(t, s', ms);
    }
  }

  lemma WriteUsed(p: Pool, data: seq<byte>)
    requires p.Shaped() && |data| <= p.length
    ensures Write(p, data).used == p.used + 1 && Write(p, data).write == (p.write + 1) % |p.slots|
  {
  }

  lemma NewIntact(p: Pool, data: seq<byte>, m: Message)
    requires p.Shaped() && |data| <= p.length && m.slot == p.write && m.payload == data && p.used >= 0
    ensures Intact(Write(p, data), m)
  {
    WriteAges(p, data, p.write);
  }

  lemma AppendIntact(s: State, ms: seq<Message>, m: Message)
    requires s.large.Shaped() && s.small.Shaped() && AllIntact(s, ms) && Ordered(s, ms)
    requires Intact(s.PoolOf(m.large), m) && forall n :: n in ms ==> Older(s, n, m)
    ensures AllIntact(s, ms + [m]) && Ordered(s, ms + [m])
  {
    hide Intact, Older;
    var ns := ms + [m];
    assert forall i :: 0 <= i < |ns| ==> ns[i] == if i < |ms| then ms[i] else m;
  }

  lemma SamePools(s: State, t: State, ms: seq<Message>)
    requires s.large.Shaped() && s.small.Shaped() && t.large == s.large && t.small == s.small
    requires AllIntact(s, ms) && Ordered(s, ms)
    ensures AllIntact(t, ms) && Ordered(t, ms)
  {
    assert forall m, n :: Older(s, m, n) ==> Older(t, m, n);
  }

  /** Sending and dispatching only move a message along. */
  lemma MoveKeeps(s: State, step: Step, s': State)
    requires Inv(s) && (step.Send? || step.Dispatch?) && SendsInOrder(step) && Next(s, step, s')
    ensures Inv(s') && s'.InFlight() == s.InFlight()
  {
    hide Count, Payloads, Intact, Age, Older, AllIntact, Ordered, State.InFlight;
    MovedAlong(s, step, s');
    SamePools(s, s', s.InFlight());
  }

  lemma MovedAlong(s: State, step: Step, s': State)
    requires (step.Send? || step.Dispatch?) && SendsInOrder(step) && Next(s, step, s')
    ensures s'.InFlight() == s.InFlight()
  {
    assert step.Send? ==> s.written[..0] + s.written[1..] == s.written[1..];
  }

  lemma FreeKeeps(s: State, s': State)
    requires Inv(s) && Next(s, Free, s')
    ensures Inv(s') && s'.InFlight() == s.InFlight()[1..]
  {
    hide Payloads, State.InFlight, Intact, Ordered, AllIntact;
    var ms := s.InFlight();
    FlightTail(s, s');
    FreedIntact(s, ms, s');
    PayloadsTail(ms);
    assert s.finished + ([ms[0].payload] + Payloads(ms[1..])) == s.finished + [ms[0].payload] + Payloads(ms[1..]);
  }

  /** Giving back the oldest slot of a ring leaves the others within the used ones. */
  lemma FreedIntact(s: State, ms: seq<Message>, s': State)
    requires s.large.Shaped() && s.small.Shaped() && ms != []
    requires AllIntact(s, ms) && Ordered(s, ms)
    requires var k := ms[0].large;
             var p := s.PoolOf(k);
             s'.PoolOf(k) == p.(used := p.used - 1) && s'.PoolOf(!k) == s.PoolOf(!k)
    ensures AllIntact(s', ms[1..]) && Ordered(s', ms[1..])
  {
    var ns := ms[1..];
    forall i | 0 <= i < |ns|
      ensures Intact(s'.PoolOf(ns[i].large), ns[i])
    {
      assert ns[i] == ms[i + 1] && Older(s, ms[0], ms[i + 1]);
      assert Intact(s.PoolOf(ms[0].large), ms[0]) && Intact(s.PoolOf(ms[i + 1].large), ms[i + 1]);
    }
    forall i, j | 0 <= i < j < |ns|
      ensures Older(s', ns[i], ns[j])
    {
      assert Older(s, ms[i + 1], ms[j + 1]);
    }
  }

  lemma FlightTail(s: State, t: State)
    requires s.handling.Some? && t.handling.None? && t.queue == s.queue && t.written == s.written
    ensures s.InFlight() == [s.handling.value] + t.InFlight() && t.InFlight() == s.InFlight()[1..]
  {
  }

  lemma PayloadsTail(ms: seq<Message>)
    requires ms != []
    ensures Payloads(ms) == [ms[0].payload] + Payloads(ms[1..])
  {
  }

  lemma StepKeeps(s: State, step: Step, s': State)
    requires Inv(s) && Next(s, step, s') && SendsInOrder(step)
    ensures Inv(s')
  {
    hide Count, Payloads, Intact, Ordered, AllIntact;
    match step
    case Relay(data, validId) =>
      if Accepting(s, data).Some? {
        RelayKeeps(s, Accepting(s, data).value, data, validId, s');
      }
    case Send(_) => MoveKeeps(s, step, s');
    case Dispatch => MoveKeeps(s, step, s');
    case Free => FreeKeeps(s, s');
  }

  // ----- Runs -----

  ghost predicate IsRun(states: seq<State>, steps: seq<Step>) {
    && |states| == |steps| + 1 && Init(states[0])
    && forall i :: 0 <= i < |steps| ==> Next(states[i], steps[i], states[i + 1])
  }

  predicate InOrder(steps: seq<Step>) {
    forall i :: 0 <= i < |steps| ==> SendsInOrder(steps[i])
  }

  lemma {:induction false} RunInv(states: seq<State>, steps: seq<Step>, i: nat)
    requires IsRun(states, steps) && InOrder(steps) && i < |states|
    ensures Inv(states[i])
  {
    hide Inv, Next, Init;
    if i == 0 {
      InitInv(states[0]);
    } else {
      RunInv(states, steps, i - 1);
      StepKeeps(states[i - 1], steps[i - 1], states[i]);
    }
  }

  /** In every reachable state a handler reads the bytes that were relayed, and no used count leaves its range. */
  lemma HandlerSeesItsPayload(states: seq<State>, steps: seq<Step>, i: nat)
    requires IsRun(states, steps) && InOrder(steps) && i < |states|
    ensures 0 <= states[i].large.used <= |states[i].large.slots| && 0 <= states[i].small.used <= |states[i].small.slots|
    ensures states[i].handling.Some? ==>
              var m := states[i].handling.value;
              var p := states[i].PoolOf(m.large);
              m.slot < |p.slots| && |m.payload| <= |p.slots[m.slot]| && p.slots[m.slot][..|m.payload|] == m.payload
  {
    RunInv(states, steps, i);
    var s := states[i];
    if s.handling.Some? {
      assert s.InFlight()[0] == s.handling.value;
    }
  }

  /** Accepted events are handled in the order in which they were relayed, each exactly once. */
  lemma HandledInOrder(states: seq<State>, steps: seq<Step>, i: nat)
    requires IsRun(states, steps) && InOrder(steps) && i < |states|
    ensures states[i].finished <= states[i].accepted
    ensures states[i].InFlight() == [] ==> states[i].finished == states[i].accepted
  {
    RunInv(states, steps, i);
  }

  // ----- Exactly the used slots -----

  /** A ring without leaks: each message is as old as there are messages from it on. */
  ghost predicate Exact(s: State, k: bool)
    requires s.large.Shaped() && s.small.Shaped()
  {
    var ms, p := s.InFlight(), s.PoolOf(k);
    s.Leaked(k) == 0 ==>
      forall i :: 0 <= i < |ms| && ms[i].large == k && ms[i].slot < |p.slots| ==>
        Age(p, ms[i].slot) == Count(ms[i..], k)
  }

  lemma ExactRelayAt(s: State, isLarge: bool, data: seq<byte>, s': State, k: bool, i: nat)
    requires Inv(s) && s.PoolOf(isLarge).used < |s.PoolOf(isLarge).slots| && RelayInto(s, isLarge, data, true, s')
    requires Exact(s, k) && s.Leaked(k) == 0
    requires i <= |s.InFlight()| && (s.InFlight() + [NewMessage(s, isLarge, data)])[i].large == k
    ensures var m := NewMessage(s, isLarge, data);
            var ms' := s.InFlight() + [m];
            && ms'[i].slot < |s'.PoolOf(k).slots| && s'.PoolOf(k).Shaped()
            && Age(s'.PoolOf(k), ms'[i].slot) == Count(ms'[i..], k)
  {
    hide State.InFlight, Ordered, Payloads;
    var p, ms := s.PoolOf(isLarge), s.InFlight();
    var m := NewMessage(s, isLarge, data);
    WriteAges(p, data, p.write);
    if i == |ms| {
      assert (ms + [m])[i..] == [m];
    } else {
      assert (ms + [m])[i] == ms[i] && (ms + [m])[i..] == ms[i..] + [m];
      assert Intact(s.PoolOf(k), ms[i]);
      CountAppend(ms[i..], m, k);
      if k == isLarge {
        IntactAfterWrite(p, data, ms[i]);
      }
    }
  }

  lemma ExactRelay(s: State, isLarge: bool, data: seq<byte>, validId: bool, s': State, k: bool)
    requires Inv(s) && s.PoolOf(isLarge).used < |s.PoolOf(isLarge).slots| && RelayInto(s, isLarge, data, validId, s')
    requires Inv(s') && Exact(s, k)
    ensures Exact(s', k)
  {
    hide Count, State.InFlight, Ordered, Payloads, Write, Intact;
    RelayKeeps(s, isLarge, data, validId, s');
    if s'.Leaked(k) == 0 {
      var ms' := s'.InFlight();
      forall i | 0 <= i < |ms'| && ms'[i].large == k && ms'[i].slot < |s'.PoolOf(k).slots|
        ensures Age(s'.PoolOf(k), ms'[i].slot) == Count(ms'[i..], k)
      {
        if validId {
          ExactRelayAt(s, isLarge, data, s', k, i);
        }
      }
    }
  }

  lemma ExactFree(s: State, s': State, k: bool)
    requires Inv(s) && Next(s, Free, s') && Inv(s') && Exact(s, k)
    ensures Exact(s', k)
  {
    hide Count, State.InFlight, Ordered, Payloads, Intact;
    FreeKeeps(s, s');
    var ms, ms' := s.InFlight(), s'.InFlight();
    forall i | 0 <= i < |ms'| && ms'[i].large == k && ms'[i].slot < |s'.PoolOf(k).slots| && s'.Leaked(k) == 0
      ensures Age(s'.PoolOf(k), ms'[i].slot) == Count(ms'[i..], k)
    {
      assert ms'[i] == ms[i + 1] && ms'[i..] == ms[i + 1..];
    }
  }

  /**
    As long as no event id was bad, the messages in flight of a ring occupy exactly the used slots behind the
    write pointer, in queue order: the message with n of its ring from it on sits n slots back.
  */
  lemma {:induction false} ExactlyTheUsedSlots(states: seq<State>, steps: seq<Step>, i: nat, k: bool)
    requires IsRun(states, steps) && InOrder(steps) && i < |states|
    ensures Inv(states[i]) && Exact(states[i], k)
    ensures states[i].Leaked(k) == 0 ==> states[i].PoolOf(k).used == Count(states[i].InFlight(), k)
  {
    hide Count, Ordered, Payloads, Intact, State.InFlight;
    RunInv(states, steps, i);
    if i == 0 {
      NoFlight(states[0]);
    } else {
      ExactlyTheUsedSlots(states, steps, i - 1, k);
      ExactStep(states[i - 1], steps[i - 1], states[i], k);
    }
  }

  lemma NoFlight(s: State)
    requires Init(s)
    ensures s.InFlight() == []
  {
  }

  lemma ExactStep(s: State, step: Step, s': State, k: bool)
    requires Inv(s) && Next(s, step, s') && SendsInOrder(step) && Inv(s') && Exact(s, k)
    ensures Exact(s', k)
  {
    hide Count, Ordered, Payloads, Intact, State.InFlight;
    match step
    case Relay(data, validId) =>
      if Accepting(s, data).Some? {
        ExactRelay(s, Accepting(s, data).value, data, validId, s', k);
      }
    case Send(_) => MoveKeeps(s, step, s');
    case Dispatch => MoveKeeps(s, step, s');
    case Free => ExactFree(s, s', k);
  }

  // ----- Sends in any order -----

  ghost predicate DistinctBorn(ms: seq<Message>) {
    forall i, j :: 0 <= i < j < |ms| && ms[i].large == ms[j].large ==> ms[i].born != ms[j].born
  }

  /** The counters of one ring: used slots, and where the write pointer is. */
  ghost predicate Counted(s: State, k: bool) {
    var p := s.PoolOf(k);
    && p.Shaped() && p.used == Count(s.InFlight(), k) + s.Leaked(k) && p.used <= |p.slots|
    && p.write == s.Relays(k) % |p.slots|
  }

  /** A message sits where the write pointer was at its relay. */
  predicate Placed(s: State, m: Message) {
    var n := |s.PoolOf(m.large).slots|;
    m.born < s.Relays(m.large) && 0 < n && m.slot == m.born % n
  }

  /** What every run keeps, in whatever order the messages are sent. */
  ghost predicate AnyOrderInv(s: State) {
    && Counted(s, true) && Counted(s, false) && DistinctBorn(s.InFlight())
    && forall m <- s.InFlight() :: Placed(s, m)
  }

  /** One element moved forward. */
  function Moved(ms: seq<Message>, a: nat, b: nat): seq<Message>
    requires a <= b < |ms|
  {
    ms[..a] + [ms[b]] + ms[a..b] + ms[b + 1..]
  }

  lemma {:induction false} CountJoin(ms: seq<Message>, ns: seq<Message>, k: bool)
    ensures Count(ms + ns, k) == Count(ms, k) + Count(ns, k)
  {
    if ms == [] {
      assert ms + ns == ns;
    } else {
      assert (ms + ns)[1..] == ms[1..] + ns;
      CountJoin(ms[1..], ns, k);
    }
  }

  lemma MovedCount(ms: seq<Message>, a: nat, b: nat, k: bool)
    requires a <= b < |ms|
    ensures Count(Moved(ms, a, b), k) == Count(ms, k)
  {
    hide Count;
    var w, x, y, z := ms[..a], ms[a..b], [ms[b]], ms[b + 1..];
    assert ms == w + x + y + z;
    CountJoin(w + x + y, z, k);
    CountJoin(w + x, y, k);
    CountJoin(w, x, k);
    CountJoin(w + y + x, z, k);
    CountJoin(w + y, x, k);
    CountJoin(w, y, k);
  }

  lemma MovedDistinct(ms: seq<Message>, a: nat, b: nat)
    requires a <= b < |ms| && DistinctBorn(ms)
    ensures DistinctBorn(Moved(ms, a, b))
    ensures forall m <- Moved(ms, a, b) :: m in ms
  {
    var ns := Moved(ms, a, b);
    assert forall i :: 0 <= i < |ns| ==> ns[i] == ms[if i < a || i > b then i else if i == a then b else i - 1];
  }

  lemma SentIsMoved(s: State, j: nat, s': State)
    requires Next(s, Send(j), s')
    ensures j < |s.written|
    ensures var a := |s.InFlight()| - |s.written|;
      0 <= a && a + j < |s.InFlight()| && s'.InFlight() == Moved(s.InFlight(), a, a + j)
  {
    hide Moved;
    var head := if s.handling.Some? then [s.handling.value] else [];
    var base, w := head + s.queue, s.written;
    assert s.InFlight() == base + w;
    MovedInBack(base, w, j);
    assert head + (s.queue + [w[j]]) == base + [w[j]];
    assert s'.InFlight() == base + [w[j]] + (w[..j] + w[j + 1..]);
  }

  lemma MovedInBack(base: seq<Message>, w: seq<Message>, j: nat)
    requires j < |w|
    ensures Moved(base + w, |base|, |base| + j) == base + [w[j]] + (w[..j] + w[j + 1..])
  {
    var ms := base + w;
    assert ms[..|base|] == base && ms[|base|..|base| + j] == w[..j] && ms[|base| + j + 1..] == w[j + 1..];
  }

  lemma MovesAnyOrder(s: State, step: Step, s': State)
    requires AnyOrderInv(s) && Next(s, step, s') && (step.Send? || step.Dispatch?)
    ensures AnyOrderInv(s') && forall m <- s'.InFlight() :: m in s.InFlight()
  {
    hide State.InFlight, Count, Moved, DistinctBorn;
    var ms := s.InFlight();
    if step.Send? {
      SentIsMoved(s, step.j, s');
      var a := |ms| - |s.written|;
      MovedCount(ms, a, a + step.j, true);
      MovedCount(ms, a, a + step.j, false);
      MovedDistinct(ms, a, a + step.j);
    } else {
      DispatchedSame(s, s');
    }
  }

  lemma DispatchedSame(s: State, s': State)
    requires Next(s, Dispatch, s')
    ensures s'.InFlight() == s.InFlight()
  {
  }

  lemma TailDistinct(ms: seq<Message>)
    requires ms != [] && DistinctBorn(ms)
    ensures DistinctBorn(ms[1..]) && forall m <- ms[1..] :: m in ms
  {
    assert forall i :: 0 <= i < |ms| - 1 ==> ms[1..][i] == ms[i + 1];
  }

  lemma FreeAnyOrder(s: State, s': State)
    requires AnyOrderInv(s) && Next(s, Free, s')
    ensures AnyOrderInv(s') && forall m <- s'.InFlight() :: m in s.InFlight()
  {
    hide State.InFlight, DistinctBorn;
    FlightTail(s, s');
    var ms := s.InFlight();
    TailDistinct(ms);
    assert forall k :: Count(ms, k) == (if ms[0].large == k then 1 else 0) + Count(ms[1..], k);
    assert Counted(s', true) && Counted(s', false);
  }

  lemma RelayAnyOrder(s: State, data: seq<byte>, validId: bool, s': State)
    requires AnyOrderInv(s) && Next(s, Relay(data, validId), s')
    ensures AnyOrderInv(s')
  {
    hide State.InFlight, Count, Write, DistinctBorn;
    var target := Accepting(s, data);
    if target.Some? {
      var k := target.value;
      WriteUsed(s.PoolOf(k), data);
      WrapsAround(s.Relays(k), |s.PoolOf(k).slots|);
      var m, ms := NewMessage(s, k, data), s.InFlight();
      if validId {
        FlightAppend(s, s', m);
        CountAppend(ms, m, true);
        CountAppend(ms, m, false);
        AppendBorn(ms, m);
      } else {
        SameFlight(s, s');
      }
    }
  }

  lemma AppendBorn(ms: seq<Message>, m: Message)
    requires DistinctBorn(ms) && forall n <- ms :: n.large == m.large ==> n.born < m.born
    ensures DistinctBorn(ms + [m])
  {
  }

  lemma AnyOrderStep(s: State, step: Step, s': State)
    requires AnyOrderInv(s) && Next(s, step, s')
    ensures AnyOrderInv(s')
  {
    hide AnyOrderInv, Next;
    match step
    case Relay(data, validId) => RelayAnyOrder(s, data, validId, s');
    case Send(_) => MovesAnyOrder(s, step, s');
    case Dispatch => MovesAnyOrder(s, step, s');
    case Free => FreeAnyOrder(s, s');
  }

  /** Every run, with sends in any order; in particular the used count never leaves its range. */
  lemma {:induction false} EveryRunCounts(states: seq<State>, steps: seq<Step>, i: nat)
    requires IsRun(states, steps) && i < |states|
    ensures AnyOrderInv(states[i])
  {
    hide AnyOrderInv, Next, Init;
    if i == 0 {
      InitAnyOrder(states[0]);
    } else {
      EveryRunCounts(states, steps, i - 1);
      AnyOrderStep(states[i - 1], steps[i - 1], states[i]);
    }
  }

  lemma InitAnyOrder(s: State)
    requires Init(s)
    ensures AnyOrderInv(s)
  {
    NoFlight(s);
    Modulo(0, |s.large.slots|, 0, 0);
    Modulo(0, |s.small.slots|, 0, 0);
  }

  // ----- Remainders -----

  lemma Modulo(x: int, n: int, q: int, r: int)
    requires n > 0 && x == q * n + r && 0 <= r < n
    ensures x % n == r
  {
    var d := x / n - q;
    assert x == x / n * n + x % n;
    assert d * n == r - x % n;
    assert d >= 1 ==> d * n >= n;
    assert d <= -1 ==> d * n <= -n;
  }

  lemma WrapsAround(x: nat, n: nat)
    requires n > 0
    ensures (x % n + 1) % n == (x + 1) % n
  {
    var q, r := x / n, x % n;
    if r + 1 < n {
      Modulo(x + 1, n, q, r + 1);
      Modulo(r + 1, n, 0, r + 1);
    } else {
      Modulo(x + 1, n, q + 1, 0);
      Modulo(n, n, 1, 0);
    }
  }

  /** Numbers less than n apart have different remainders; numbers n apart have the same. */
  lemma Apart(x: nat, a: nat, n: nat)
    requires 0 < a <= n
    ensures (x + a) % n == x % n <==> a == n
  {
    var q, r := x / n, x % n;
    assert x == q * n + r;
    if r + a < n {
      Modulo(x + a, n, q, r + a);
    } else {
      assert x + a == (q + 1) * n + (r + a - n);
      Modulo(x + a, n, q + 1, r + a - n);
    }
  }

  // ----- When a pending payload is overwritten -----

  /** The step is an accepted relay that writes into the slot of a message in flight. */
  ghost predicate Overwrites(s: State, step: Step) {
    && step.Relay? && Accepting(s, step.data).Some?
    && var k := Accepting(s, step.data).value;
    exists m <- s.InFlight() :: m.large == k && m.slot == s.PoolOf(k).write
  }

  /** How many relays of its ring ago a message was relayed. */
  function RelayAge(s: State, m: Message): int {
    s.Relays(m.large) - m.born
  }

  /** The step is an accepted relay into a ring some of whose messages is as many relays old as there are slots. */
  ghost predicate FindsTooOld(s: State, step: Step) {
    && step.Relay? && Accepting(s, step.data).Some?
    && var k := Accepting(s, step.data).value;
    exists m <- s.InFlight() :: m.large == k && RelayAge(s, m) >= |s.PoolOf(k).slots|
  }

  ghost predicate NoneOlder(s: State) {
    forall m <- s.InFlight() :: RelayAge(s, m) <= |s.PoolOf(m.large).slots|
  }

  /** The write pointer comes to the slot of a message once it is as many relays old as there are slots. */
  lemma NextVictim(s: State, m: Message)
    requires AnyOrderInv(s) && m in s.InFlight() && RelayAge(s, m) <= |s.PoolOf(m.large).slots|
    ensures m.slot == s.PoolOf(m.large).write <==> RelayAge(s, m) == |s.PoolOf(m.large).slots|
  {
    hide State.InFlight, Count, DistinctBorn;
    assert Placed(s, m) && Counted(s, m.large);
    Apart(m.born, RelayAge(s, m), |s.PoolOf(m.large).slots|);
  }

  lemma NoneTooOldStep(s: State, step: Step)
    requires AnyOrderInv(s) && !FindsTooOld(s, step)
    ensures !Overwrites(s, step)
  {
    hide AnyOrderInv, State.InFlight;
    if Overwrites(s, step) {
      var k := Accepting(s, step.data).value;
      var m :| m in s.InFlight() && m.large == k && m.slot == s.PoolOf(k).write;
      NextVictim(s, m);
    }
  }

  /** As long as nothing is overwritten, no message gets older than its ring has slots. */
  lemma NotOverwrittenStep(s: State, step: Step, s': State)
    requires AnyOrderInv(s) && NoneOlder(s) && Next(s, step, s') && !Overwrites(s, step)
    ensures NoneOlder(s') && !FindsTooOld(s, step)
  {
    hide AnyOrderInv, State.InFlight, Write;
    if !step.Relay? {
      KeptMessages(s, step, s');
    } else if Accepting(s, step.data).Some? {
      var k := Accepting(s, step.data).value;
      WriteUsed(s.PoolOf(k), step.data);
      forall m | m in s.InFlight() && m.large == k
        ensures RelayAge(s, m) < |s.PoolOf(k).slots|
      {
        NextVictim(s, m);
      }
      RelayedMessages(s, step.data, step.validId, s');
    }
  }

  lemma KeptMessages(s: State, step: Step, s': State)
    requires AnyOrderInv(s) && Next(s, step, s') && !step.Relay?
    ensures forall m <- s'.InFlight() :: m in s.InFlight()
    ensures forall k :: s'.Relays(k) == s.Relays(k) && s'.PoolOf(k).slots == s.PoolOf(k).slots
  {
    hide AnyOrderInv, State.InFlight;
    if step.Free? {
      FreeAnyOrder(s, s');
    } else {
      MovesAnyOrder(s, step, s');
    }
  }

  lemma RelayedMessages(s: State, data: seq<byte>, validId: bool, s': State)
    requires Next(s, Relay(data, validId), s') && Accepting(s, data).Some?
    ensures var m := NewMessage(s, Accepting(s, data).value, data);
      s'.InFlight() == if validId then s.InFlight() + [m] else s.InFlight()
  {
    hide State.InFlight, Write;
    if validId {
      FlightAppend(s, s', NewMessage(s, Accepting(s, data).value, data));
    } else {
      SameFlight(s, s');
    }
  }

  ghost predicate NoOverwriteBefore(states: seq<State>, steps: seq<Step>, i: nat)
    requires i <= |steps| < |states|
  {
    forall j :: 0 <= j < i ==> !Overwrites(states[j], steps[j])
  }

  lemma {:induction false} NoneGrowsTooOld(states: seq<State>, steps: seq<Step>, i: nat)
    requires IsRun(states, steps) && i < |states| && NoOverwriteBefore(states, steps, i)
    ensures NoneOlder(states[i])
  {
    hide AnyOrderInv, Next, Init, Overwrites, FindsTooOld, NoneOlder;
    if i == 0 {
      InitNoneOlder(states[0]);
    } else {
      NoneGrowsTooOld(states, steps, i - 1);
      EveryRunCounts(states, steps, i - 1);
      NotOverwrittenStep(states[i - 1], steps[i - 1], states[i]);
    }
  }

  lemma InitNoneOlder(s: State)
    requires Init(s)
    ensures NoneOlder(s)
  {
    NoFlight(s);
  }

  /**
    The exact condition, over every run and for sends in any order: no pending payload is overwritten if and
    only if every accepted relay found all messages in flight of its ring fewer relays old than it has slots.
  */
  lemma OverwrittenIffTooOld(states: seq<State>, steps: seq<Step>)
    requires IsRun(states, steps)
    ensures (forall i :: 0 <= i < |steps| ==> !Overwrites(states[i], steps[i]))
      <==> (forall i :: 0 <= i < |steps| ==> !FindsTooOld(states[i], steps[i]))
  {
    hide AnyOrderInv, Next, Init, Overwrites, FindsTooOld, NoneOlder;
    forall i | 0 <= i < |steps|
      ensures !FindsTooOld(states[i], steps[i]) ==> !Overwrites(states[i], steps[i])
      ensures NoOverwriteBefore(states, steps, i) && !Overwrites(states[i], steps[i]) ==>
        !FindsTooOld(states[i], steps[i])
    {
      EveryRunCounts(states, steps, i);
      if !FindsTooOld(states[i], steps[i]) {
        NoneTooOldStep(states[i], steps[i]);
      }
      if NoOverwriteBefore(states, steps, i) && !Overwrites(states[i], steps[i]) {
        NoneGrowsTooOld(states, steps, i);
        NotOverwrittenStep(states[i], steps[i], states[i + 1]);
      }
    }
  }

  // ----- What not being overwritten means -----

  /** A handler of the message that reads as many bytes reads these. */
  ghost predicate Reads(s: State, m: Message, bytes: seq<byte>) {
    var p := s.PoolOf(m.large);
    m.slot < |p.slots| && |bytes| <= |p.slots[m.slot]| && p.slots[m.slot][..|bytes|] == bytes
  }

  /** The slot still holds what was relayed. */
  ghost predicate Held(s: State, m: Message) {
    Reads(s, m, m.payload)
  }

  ghost predicate AllHeld(s: State) {
    forall m <- s.InFlight() :: Held(s, m)
  }

  /** No two messages in flight of a ring share a slot. */
  ghost predicate DistinctSlots(s: State) {
    var ms := s.InFlight();
    forall i, j :: 0 <= i < j < |ms| && ms[i].large == ms[j].large ==> ms[i].slot != ms[j].slot
  }

  lemma YoungAreDistinct(s: State)
    requires AnyOrderInv(s) && NoneOlder(s)
    ensures DistinctSlots(s)
  {
    hide State.InFlight, Counted;
    var ms := s.InFlight();
    forall i, j | 0 <= i < j < |ms| && ms[i].large == ms[j].large
      ensures ms[i].slot != ms[j].slot
    {
      assert Placed(s, ms[i]) && Placed(s, ms[j]);
      assert RelayAge(s, ms[i]) <= |s.PoolOf(ms[i].large).slots| && RelayAge(s, ms[j]) <= |s.PoolOf(ms[j].large).slots|;
      var x, y := ms[i].born, ms[j].born;
      if x < y {
        Apart(x, y - x, |s.PoolOf(ms[i].large).slots|);
      } else {
        Apart(y, x - y, |s.PoolOf(ms[i].large).slots|);
      }
    }
  }

  lemma HeldStep(s: State, step: Step, s': State)
    requires AnyOrderInv(s) && AllHeld(s) && Next(s, step, s') && !Overwrites(s, step)
    ensures AllHeld(s')
  {
    hide AnyOrderInv, State.InFlight, Write;
    if !step.Relay? {
      KeptMessages(s, step, s');
    } else if Accepting(s, step.data).Some? {
      var k := Accepting(s, step.data).value;
      RelayedMessages(s, step.data, step.validId, s');
      WriteAges(s.PoolOf(k), step.data, s.PoolOf(k).write);
      forall m | m in s'.InFlight()
        ensures Held(s', m)
      {
        if m in s.InFlight() && m.large == k {
          WriteAges(s.PoolOf(k), step.data, m.slot);
        }
      }
    }
  }

  /** Up to the first overwriting, every payload in flight is in its slot and no two share one. */
  lemma {:induction false} SafeUntilOverwritten(states: seq<State>, steps: seq<Step>, i: nat)
    requires IsRun(states, steps) && i < |states| && NoOverwriteBefore(states, steps, i)
    ensures AllHeld(states[i]) && DistinctSlots(states[i])
  {
    hide AnyOrderInv, Next, Init, Overwrites, NoneOlder, AllHeld, DistinctSlots;
    EveryRunCounts(states, steps, i);
    NoneGrowsTooOld(states, steps, i);
    YoungAreDistinct(states[i]);
    if i == 0 {
      InitHeld(states[0]);
    } else {
      SafeUntilOverwritten(states, steps, i - 1);
      EveryRunCounts(states, steps, i - 1);
      HeldStep(states[i - 1], steps[i - 1], states[i]);
    }
  }

  lemma InitHeld(s: State)
    requires Init(s)
    ensures AllHeld(s)
  {
    NoFlight(s);
  }

  /** An overwriting relay puts its data into the slot of a message that is still in flight. */
  lemma OverwritingDamages(s: State, data: seq<byte>, validId: bool, s': State) returns (m: Message)
    requires AnyOrderInv(s) && Overwrites(s, Relay(data, validId)) && Next(s, Relay(data, validId), s')
    ensures m in s.InFlight() && m in s'.InFlight()
    ensures Reads(s', m, data) && (validId ==> !DistinctSlots(s'))
  {
    hide AnyOrderInv, State.InFlight, Write;
    var k := Accepting(s, data).value;
    m :| m in s.InFlight() && m.large == k && m.slot == s.PoolOf(k).write;
    RelayedMessages(s, data, validId, s');
    WriteAges(s.PoolOf(k), data, s.PoolOf(k).write);
    if validId {
      var ms := s.InFlight();
      var i :| 0 <= i < |ms| && ms[i] == m;
      assert s'.InFlight()[i] == m && s'.InFlight()[|ms|] == NewMessage(s, k, data);
    }
  }

  /** With valid event ids: no two messages of a ring ever share a slot, under the same exact condition. */
  lemma DistinctIffNoneTooOld(states: seq<State>, steps: seq<Step>)
    requires IsRun(states, steps) && forall i :: 0 <= i < |steps| && steps[i].Relay? ==> steps[i].validId
    ensures (forall i :: 0 <= i < |states| ==> DistinctSlots(states[i]))
      <==> (forall i :: 0 <= i < |steps| ==> !FindsTooOld(states[i], steps[i]))
  {
    hide AnyOrderInv, Next, Init, Overwrites, FindsTooOld, DistinctSlots;
    OverwrittenIffTooOld(states, steps);
    if forall i :: 0 <= i < |steps| ==> !FindsTooOld(states[i], steps[i]) {
      forall i | 0 <= i < |states|
        ensures DistinctSlots(states[i])
      {
        SafeUntilOverwritten(states, steps, i);
      }
    } else {
      var i :| 0 <= i < |steps| && Overwrites(states[i], steps[i]);
      EveryRunCounts(states, steps, i);
      OverwritingIsRelay(states[i], steps[i]);
      var m := OverwritingDamages(states[i], steps[i].data, steps[i].validId, states[i + 1]);
    }
  }

  lemma OverwritingIsRelay(s: State, step: Step)
    requires Overwrites(s, step)
    ensures step.Relay?
  {
  }

  /** Sends in the order of the copies meet the condition. */
  lemma InOrderNeverOverwrites(states: seq<State>, steps: seq<Step>)
    requires IsRun(states, steps) && InOrder(steps)
    ensures forall i :: 0 <= i < |steps| ==> !Overwrites(states[i], steps[i]) && !FindsTooOld(states[i], steps[i])
  {
    hide Inv, Next, Init, Overwrites, FindsTooOld;
    forall i | 0 <= i < |steps|
      ensures !Overwrites(states[i], steps[i])
    {
      RunInv(states, steps, i);
      InOrderStep(states[i], steps[i]);
    }
    OverwrittenIffTooOld(states, steps);
  }

  lemma InOrderStep(s: State, step: Step)
    requires Inv(s)
    ensures !Overwrites(s, step)
  {
    hide State.InFlight, Count, Payloads, Ordered;
    assert forall m :: m in s.InFlight() ==> Intact(s.PoolOf(m.large), m);
  }

  // ----- Runs that overwrite -----

  lemma ExtendRun(states: seq<State>, steps: seq<Step>, step: Step, s': State)
    requires IsRun(states, steps) && Next(states[|steps|], step, s')
    ensures IsRun(states + [s'], steps + [step])
  {
    hide Next;
  }

  /** A ring of k in which one message is stalled before its send, and everything else is done. */
  ghost predicate Stalled(s: State, k: bool, m: Message, relays: nat) {
    && s.PoolOf(k).Shaped() && s.PoolOf(!k).Shaped() && s.written == [m] && s.queue == [] && s.handling.None?
    && s.PoolOf(k).used == 1 && s.Relays(k) == relays
  }

  ghost predicate SameSizes(s: State, t: State) {
    && t.large.length == s.large.length && t.small.length == s.small.length
    && |t.large.slots| == |s.large.slots| && |t.small.slots| == |s.small.slots|
  }

  /** The first task stalls after its copy. */
  lemma StallRun(s: State, k: bool, data: seq<byte>) returns (states: seq<State>, steps: seq<Step>)
    requires Init(s) && Target(s, |data|) == Some(k)
    ensures IsRun(states, steps) && |steps| == 1 && states[0] == s && SameSizes(s, states[1])
    ensures Stalled(states[1], k, NewMessage(s, k, data), 1)
  {
    hide Write;
    WriteUsed(s.PoolOf(k), data);
    var t := Copied(s, k, data).(written := [NewMessage(s, k, data)], accepted := [data]);
    states, steps := [s, t], [Relay(data, true)];
  }

  /** Another task's event goes all the way. */
  lemma Overtake(s: State, k: bool, m: Message, relays: nat, data: seq<byte>)
    returns (s1: State, s2: State, s3: State, s4: State)
    requires Stalled(s, k, m, relays) && |s.PoolOf(k).slots| >= 2 && Target(s, |data|) == Some(k)
    ensures Next(s, Relay(data, true), s1) && Next(s1, Send(1), s2) && Next(s2, Dispatch, s3) && Next(s3, Free, s4)
    ensures Stalled(s4, k, m, relays + 1) && SameSizes(s, s4)
  {
    hide Write;
    var n := NewMessage(s, k, data);
    WriteUsed(s.PoolOf(k), data);
    s1 := Copied(s, k, data).(written := [m] + [n], accepted := s.accepted + [data]);
    s2 := s1.(queue := [n], written := [m]);
    s3 := s2.(handling := Some(n), queue := []);
    var p := s3.PoolOf(k);
    s4 := s3.WithPool(k, p.(used := p.used - 1)).(handling := None, finished := s3.finished + [data]);
  }

  lemma {:induction false} OvertakeRun(s: State, k: bool, data: seq<byte>, c: nat)
    returns (states: seq<State>, steps: seq<Step>)
    requires Init(s) && Target(s, |data|) == Some(k) && |s.PoolOf(k).slots| >= 2
    ensures IsRun(states, steps) && states[0] == s && SameSizes(s, states[|steps|])
    ensures Stalled(states[|steps|], k, NewMessage(s, k, data), 1 + c)
  {
    hide IsRun, Next, Init, Stalled, Write;
    if c == 0 {
      states, steps := StallRun(s, k, data);
    } else {
      var xs, ys := OvertakeRun(s, k, data, c - 1);
      RunSizes(xs, ys);
      var s1, s2, s3, s4 := Overtake(xs[|ys|], k, NewMessage(s, k, data), c, data);
      ExtendRun(xs, ys, Relay(data, true), s1);
      ExtendRun(xs + [s1], ys + [Relay(data, true)], Send(1), s2);
      ExtendRun(xs + [s1] + [s2], ys + [Relay(data, true)] + [Send(1)], Dispatch, s3);
      ExtendRun(xs + [s1] + [s2] + [s3], ys + [Relay(data, true)] + [Send(1)] + [Dispatch], Free, s4);
      states := xs + [s1] + [s2] + [s3] + [s4];
      steps := ys + [Relay(data, true)] + [Send(1)] + [Dispatch] + [Free];
    }
  }

  lemma RunSizes(states: seq<State>, steps: seq<Step>)
    requires IsRun(states, steps)
    ensures |states| == |steps| + 1
  {
  }

  /** The relay that overwrites the stalled message, which is then sent and handled. */
  lemma OverwriteThenHandle(s: State, k: bool, m: Message, relays: nat, other: seq<byte>)
    returns (s1: State, s2: State, s3: State)
    requires Stalled(s, k, m, relays) && |s.PoolOf(k).slots| >= 2 && Target(s, |other|) == Some(k)
    requires m.large == k && m.slot == s.PoolOf(k).write && |m.payload| == |other| && m.payload != other
    ensures Next(s, Relay(other, true), s1) && Next(s1, Send(0), s2) && Next(s2, Dispatch, s3)
    ensures s3.handling == Some(m) && Reads(s3, m, other) && !Held(s3, m)
  {
    hide Write;
    var n, p := NewMessage(s, k, other), s.PoolOf(k);
    WriteUsed(p, other);
    WriteAges(p, other, p.write);
    s1 := Copied(s, k, other).(written := [m] + [n], accepted := s.accepted + [other]);
    s2 := s1.(queue := [m], written := [n]);
    s3 := s2.(handling := Some(m), queue := []);
  }

  /**
    In every ring of two or more slots a pending payload can be overwritten: from any initial state, one task
    stalls between its copy and its send while another relays as many events as there are slots. When the stalled
    message is sent after all, its handler reads the bytes of another event.
  */
  lemma OvertakingOverwrites(s: State, k: bool, data: seq<byte>, other: seq<byte>)
    returns (states: seq<State>, steps: seq<Step>, i: nat)
    requires Init(s) && Target(s, |data|) == Some(k) && |s.PoolOf(k).slots| >= 2
    requires |other| == |data| && other != data
    ensures IsRun(states, steps) && states[0] == s
    ensures |states| == |steps| + 1 == i + 4 && Overwrites(states[i], steps[i])
    ensures var last := states[|steps|];
      && last.handling.Some? && last.handling.value.payload == data
      && Reads(last, last.handling.value, other) && !Held(last, last.handling.value)
  {
    hide IsRun, Init, Next, Overwrites, Held, Reads, Write;
    var xs, ys := OvertakeRun(s, k, data, |s.PoolOf(k).slots| - 1);
    RunSizes(xs, ys);
    i := |ys|;
    EveryRunCounts(xs, ys, i);
    var m := NewMessage(s, k, data);
    InitBorn(s, k, data);
    StalledIsNext(xs[i], k, m, other);
    var s1, s2, s3 := OverwriteThenHandle(xs[i], k, m, |s.PoolOf(k).slots|, other);
    ExtendRun(xs, ys, Relay(other, true), s1);
    ExtendRun(xs + [s1], ys + [Relay(other, true)], Send(0), s2);
    ExtendRun(xs + [s1] + [s2], ys + [Relay(other, true)] + [Send(0)], Dispatch, s3);
    states := xs + [s1] + [s2] + [s3];
    steps := ys + [Relay(other, true)] + [Send(0)] + [Dispatch];
    assert states[i] == xs[i] && steps[i] == Relay(other, true);
  }

  lemma InitBorn(s: State, k: bool, data: seq<byte>)
    requires Init(s)
    ensures NewMessage(s, k, data).born == 0
  {
  }

  lemma StalledIsNext(s: State, k: bool, m: Message, data: seq<byte>)
    requires AnyOrderInv(s) && |s.PoolOf(k).slots| >= 2 && Target(s, |data|) == Some(k) && m.large == k
    requires Stalled(s, k, m, |s.PoolOf(k).slots|)
    ensures m.born == 0 ==> m.slot == s.PoolOf(k).write && Overwrites(s, Relay(data, true))
  {
    hide AnyOrderInv;
    assert s.InFlight() == [m];
    if m.born == 0 {
      NextVictim(s, m);
      assert Accepting(s, data) == Some(k);
    }
  }

  /** A ring of one slot is safe in every run. */
  lemma OneSlotIsSafe(states: seq<State>, steps: seq<Step>, i: nat)
    requires IsRun(states, steps) && i < |steps| < |states| && steps[i].Relay?
    requires var k := Accepting(states[i], steps[i].data);
      k.Some? && |states[i].PoolOf(k.value).slots| == 1
    ensures !Overwrites(states[i], steps[i])
  {
    hide IsRun, Next;
    RunSizes(states, steps);
    EveryRunCounts(states, steps, i);
    var s := states[i];
    var k := Accepting(s, steps[i].data).value;
    assert Counted(s, k);
    NoneCounted(s.InFlight(), k);
  }

  lemma {:induction false} NoneCounted(ms: seq<Message>, k: bool)
    requires Count(ms, k) == 0
    ensures forall m <- ms :: m.large != k
  {
    if ms != [] {
      NoneCounted(ms[1..], k);
    }
  }

  // ----- What bad event ids do -----

  /** Accepted relays into ring k with a bad event id, among the first i steps. */
  ghost function BadRelays(states: seq<State>, steps: seq<Step>, i: nat, k: bool): nat
    requires i <= |steps| < |states|
  {
    if i == 0 then 0
    else
      var step := steps[i - 1];
      BadRelays(states, steps, i - 1, k)
        + if step.Relay? && !step.validId && Accepting(states[i - 1], step.data) == Some(k) then 1 else 0
  }

  lemma {:induction false} LeakedAreBadRelays(states: seq<State>, steps: seq<Step>, i: nat, k: bool)
    requires IsRun(states, steps) && i < |states|
    ensures states[i].Leaked(k) == BadRelays(states, steps, i, k)
  {
    hide Init, Next;
    if i == 0 {
      InitNoLeak(states[0], k);
    } else {
      LeakedAreBadRelays(states, steps, i - 1, k);
      LeakStep(states[i - 1], steps[i - 1], states[i], k);
    }
  }

  lemma InitNoLeak(s: State, k: bool)
    requires Init(s)
    ensures s.Leaked(k) == 0
  {
  }

  lemma LeakStep(s: State, step: Step, s': State, k: bool)
    requires Next(s, step, s')
    ensures s'.Leaked(k) == s.Leaked(k)
      + if step.Relay? && !step.validId && Accepting(s, step.data) == Some(k) then 1 else 0
  {
    hide Write;
  }

  /**
    Over every run, in any order of sends: the used slots are those of the messages in flight and those lost to
    bad event ids. With nothing in flight a ring is empty if and only if none of its relays had a bad id.
  */
  lemma BadIdsLoseSlots(states: seq<State>, steps: seq<Step>, i: nat, k: bool)
    requires IsRun(states, steps) && i < |states|
    ensures states[i].PoolOf(k).used == Count(states[i].InFlight(), k) + BadRelays(states, steps, i, k)
    ensures 0 <= states[i].PoolOf(k).used <= |states[i].PoolOf(k).slots|
    ensures states[i].InFlight() == [] ==> (states[i].PoolOf(k).used == 0 <==> BadRelays(states, steps, i, k) == 0)
  {
    hide IsRun, BadRelays;
    EveryRunCounts(states, steps, i);
    LeakedAreBadRelays(states, steps, i, k);
    assert Counted(states[i], k);
  }

  lemma {:induction false} BadRelaysStay(states: seq<State>, steps: seq<Step>, i: nat, j: nat, k: bool)
    requires IsRun(states, steps) && i <= j < |states|
    ensures BadRelays(states, steps, i, k) <= BadRelays(states, steps, j, k)
    ensures |states[i].PoolOf(k).slots| == |states[j].PoolOf(k).slots|
    decreases j
  {
    hide Next, Init;
    if i < j {
      BadRelaysStay(states, steps, i, j - 1, k);
      SlotsStay(states[j - 1], steps[j - 1], states[j], k);
    }
  }

  lemma SlotsStay(s: State, step: Step, s': State, k: bool)
    requires Next(s, step, s')
    ensures |s'.PoolOf(k).slots| == |s.PoolOf(k).slots|
  {
    hide Write;
  }

  /** Lost slots never come back: once a ring has lost them all, it refuses every relay for ever. */
  lemma LostRingStaysDead(states: seq<State>, steps: seq<Step>, i: nat, j: nat, k: bool, data: seq<byte>)
    requires IsRun(states, steps) && i <= j < |states| && BadRelays(states, steps, i, k) >= |states[i].PoolOf(k).slots|
    ensures Accepting(states[j], data) != Some(k)
  {
    hide IsRun, BadRelays;
    BadRelaysStay(states, steps, i, j, k);
    BadIdsLoseSlots(states, steps, j, k);
  }

  /** Nothing is in flight, and ring k has lost c slots. */
  ghost predicate Lost(s: State, k: bool, c: nat) {
    && s.PoolOf(k).Shaped() && s.PoolOf(!k).Shaped() && s.PoolOf(k).used == c
    && s.written == [] == s.queue && s.handling.None?
  }

  lemma BadIdStep(s: State, k: bool, c: nat, data: seq<byte>) returns (t: State)
    requires Lost(s, k, c) && c < |s.PoolOf(k).slots| && Target(s, |data|) == Some(k)
    ensures Next(s, Relay(data, false), t) && SameSizes(s, t) && Lost(t, k, c + 1)
  {
    hide Write;
    WriteUsed(s.PoolOf(k), data);
    t := Copied(s, k, data);
    t := if k then t.(leakedLarge := s.leakedLarge + 1) else t.(leakedSmall := s.leakedSmall + 1);
  }

  lemma {:induction false} BadIdsRun(s: State, k: bool, data: seq<byte>, c: nat)
    returns (states: seq<State>, steps: seq<Step>)
    requires Init(s) && Target(s, |data|) == Some(k) && c <= |s.PoolOf(k).slots|
    ensures IsRun(states, steps) && states[0] == s && |states| == |steps| + 1 == c + 1
    ensures SameSizes(s, states[c]) && Lost(states[c], k, c)
  {
    if c == 0 {
      states, steps := [s], [];
    } else {
      hide IsRun, Init, Lost, Next;
      var xs, ys := BadIdsRun(s, k, data, c - 1);
      var t := BadIdStep(xs[c - 1], k, c - 1, data);
      ExtendRun(xs, ys, Relay(data, false), t);
      states, steps := xs + [t], ys + [Relay(data, false)];
    }
  }

  /** It happens: from any initial state, as many bad event ids as there are slots lose the whole ring. */
  lemma BadIdsLoseRing(s: State, k: bool, data: seq<byte>) returns (states: seq<State>, steps: seq<Step>)
    requires Init(s) && Target(s, |data|) == Some(k)
    ensures IsRun(states, steps) && states[0] == s && |states| == |steps| + 1 == |s.PoolOf(k).slots| + 1
    ensures states[|steps|].InFlight() == [] && BadRelays(states, steps, |steps|, k) == |s.PoolOf(k).slots|
    ensures forall d :: Accepting(states[|steps|], d) != Some(k)
  {
    hide IsRun, Init, BadRelays;
    states, steps := BadIdsRun(s, k, data, |s.PoolOf(k).slots|);
    BadIdsLoseSlots(states, steps, |steps|, k);
  }

  // ----- The buffer -----

  /** The offset of slot j, by repeated addition. */
  function Offset(j: nat, length: nat): nat {
    if j == 0 then 0 else Offset(j - 1, length) + length
  }

  /** The address, relative to the buffer, is that of slot j. */
  predicate IsSlotAt(address: int, j: nat, length: nat) {
    address == j * length
  }

  lemma {:induction false} OffsetIsProduct(j: nat, length: nat)
    ensures Offset(j, length) == j * length
  {
    if j > 0 {
      OffsetIsProduct(j - 1, length);
      assert (j - 1) * length + length == j * length;
    }
  }

  lemma {:induction false} SlotsApart(j: nat, k: nat, length: nat)
    requires j < k
    ensures Offset(j, length) + length <= Offset(k, length)
  {
    if j + 1 < k {
      SlotsApart(j, k - 1, length);
    }
  }

  class PayloadRing {
    const buf: array<byte>
    const num: nat
    const length: nat
    var used: int
    var write: nat

    ghost predicate Valid()
      reads this
    {
      0 < num && 0 < length && write < num && buf.Length == Offset(num, length)
    }

    ghost function Slot(j: nat): (r: seq<byte>)
      requires buf.Length == Offset(num, length) && j < num
      reads buf
      ensures |r| == length
    {
      SlotsApart(j, num, length);
      buf[Offset(j, length)..Offset(j, length) + length]
    }

    /** The ring that the buffer and the counters stand for. */
    ghost function P(): (r: Pool)
      requires Valid()
      reads this, buf
      ensures r.Shaped()
    {
      var slots := seq(num, j requires 0 <= j < num && buf.Length == Offset(num, length) reads this, buf => Slot(j));
      Pool(length, slots, used, write)
    }

    constructor (length: nat, num: nat)
      requires 0 < length && 0 < num
      ensures Valid() && fresh(buf) && used == 0 && write == 0 && this.length == length && this.num == num
    {
      this.length, this.num, used, write := length, num, 0, 0;
      buf := new byte[Offset(num, length)];
    }

    /** The copy of the payload into slot w. */
    method CopyInto(w: nat, data: seq<byte>)
      requires buf.Length == Offset(num, length) && w < num && |data| <= length
      modifies buf
      ensures Slot(w) == data + old(Slot(w))[|data|..]
      ensures forall j :: 0 <= j < num && j != w ==> Slot(j) == old(Slot(j))
    {
      hide Offset;
      SlotsApart(w, num, length);
      var dst := Offset(w, length);
      ghost var before := buf[..];
      forall i | 0 <= i < |data| {
        buf[dst + i] := data[i];
      }
      assert Slot(w) == data + before[dst + |data|..dst + length];
      forall j | 0 <= j < num && j != w
        ensures Slot(j) == old(Slot(j))
      {
        SlotsApart(j, num, length);
        if j < w {
          SlotsApart(j, w, length);
        } else {
          SlotsApart(w, j, length);
        }
      }
    }

    /** The critical section of wmi_event_relay; dst is the offset of the slot that was filled. */
    method Relay(data: seq<byte>) returns (dst: int)
      requires Valid() && |data| <= length
      modifies this`used, this`write, buf
      ensures Valid()
      ensures if old(used) >= num then dst == -1 && P() == old(P())
              else IsSlotAt(dst, old(write), length) && P() == Write(old(P()), data)
      ensures dst != -1 ==> 0 <= dst <= dst + |data| <= buf.Length && buf[dst..dst + |data|] == data
    {
      if used >= num {
        return -1;
      }
      ghost var w, before := write, P();
      SlotsApart(write, num, length);
      OffsetIsProduct(write, length);
      dst := write * length;
      CopyInto(write, data);
      write := (write + 1) % num;
      used := used + 1;
      ghost var after := Write(before, data);
      assert forall j :: 0 <= j < num ==>
        after.slots[j] == if j == w then data + before.slots[w][|data|..] else before.slots[j];
      assert P().slots == after.slots;
      assert Slot(w)[..|data|] == data;
    }

    /** wmi_event_buf_free: finds out whether the address is one of this ring's slots. */
    method Free(address: int) returns (matched: bool)
      requires Valid()
      modifies this`used
      ensures Valid() && (matched <==> exists j :: 0 <= j < num && IsSlotAt(address, j, length))
      ensures P() == if matched then old(P()).(used := old(used) - 1) else old(P())
    {
      matched := false;
      var j := 0;
      while j < num
        invariant 0 <= j <= num && !matched && forall i :: 0 <= i < j ==> !IsSlotAt(address, i, length)
      {
        if IsSlotAt(address, j, length) {
          matched := true;
          break;
        }
        j := j + 1;
      }
      if matched {
        used := used - 1;
      }
    }
  }

  /** wmi_event_relay up to the send: which of the two rings takes the payload, if any. */
  method RelayEvent(large: PayloadRing, small: PayloadRing, data: seq<byte>) returns (taken: bool)
    requires large.Valid() && small.Valid() && large != small && large.buf != small.buf
    modifies large`used, large`write, large.buf, small`used, small`write, small.buf
    ensures large.Valid() && small.Valid()
    ensures |data| > small.length || !taken ==> small.P() == old(small.P())
    ensures |data| <= small.length || !taken ==> large.P() == old(large.P())
    ensures taken <==> (|data| <= large.length
                        && if |data| > small.length then old(large.used) < large.num else old(small.used) < small.num)
    ensures taken && |data| > small.length ==> large.P() == Write(old(large.P()), data)
    ensures taken && |data| <= small.length ==> small.P() == Write(old(small.P()), data)
  {
    hide Write;
    if |data| > large.length {
      return false;
    }
    var dst;
    if |data| > small.length {
      dst := large.Relay(data);
    } else {
      dst := small.Relay(data);
    }
    return dst != -1;
  }
}
