/**
  The GPIO interrupt callbacks (drivers/peripherals/qapi_gpio.c): a singly linked list of registrations,
  searched from its head. Enabling updates the registration of a pin or pushes a new one in front; disabling
  unlinks and frees it; the interrupt handler calls the callbacks of the pending pins, which may themselves
  enable and disable.
*/
module GpioCallbacks {
  import opened Basics

  const MAX_ID: nat := 15
  const TRIGGER_MAX: nat := 3

  datatype Status = Ok | InvalidParam | Error | NoMemory

  datatype Entry = Entry(id: nat, func: nat, data: nat)

  class Node {
    const id: nat
    var func: nat
    var data: nat
    var next: Node?

    constructor (id: nat, func: nat, data: nat, next: Node?)
      ensures this.id == id && this.func == func && this.data == data && this.next == next
    {
      this.id, this.func, this.data, this.next := id, func, data, next;
    }
  }

  // ----- The list as a table -----

  predicate DistinctIds(s: seq<Entry>) {
    forall i, j :: 0 <= i < j < |s| ==> s[i].id != s[j].id
  }

  predicate InRange(s: seq<Entry>) {
    forall i :: 0 <= i < |s| ==> s[i].id < MAX_ID
  }

  /** The position of the pin's registration, or the length of the list. */
  function Find(s: seq<Entry>, id: nat): (k: nat)
    ensures k <= |s| && (k < |s| ==> s[k].id == id) && forall j :: 0 <= j < k ==> s[j].id != id
  {
    if s == [] || s[0].id == id then 0 else 1 + Find(s[1..], id)
  }

  function Without<T>(s: seq<T>, k: nat): (r: seq<T>)
    requires k < |s|
    ensures |r| == |s| - 1 && forall j :: 0 <= j < |r| ==> r[j] == s[if j < k then j else j + 1]
  {
    s[..k] + s[k + 1..]
  }

  function Put(s: seq<Entry>, e: Entry): seq<Entry> {
    if Find(s, e.id) < |s| then s[Find(s, e.id) := e] else [e] + s
  }

  function Drop(s: seq<Entry>, id: nat): seq<Entry> {
    if Find(s, id) < |s| then Without(s, Find(s, id)) else s
  }

  /** What the list holds for a pin. */
  function Lookup(s: seq<Entry>, id: nat): Option<Entry> {
    if Find(s, id) < |s| then Some(s[Find(s, id)]) else None
  }

  lemma FindIs(s: seq<Entry>, id: nat, k: nat)
    requires k <= |s| && (k < |s| ==> s[k].id == id) && forall j :: 0 <= j < k ==> s[j].id != id
    ensures Find(s, id) == k
  {
  }

  lemma FindFrom(s: seq<Entry>, id: nat, k: nat)
    requires k < |s| && k <= Find(s, id)
    ensures Find(s, id) == k <==> s[k].id == id
  {
  }

  /** Updating or pushing assigns to one pin and leaves the others alone. */
  lemma PutAssigns(s: seq<Entry>, e: Entry, id: nat)
    ensures Lookup(Put(s, e), id) == if id == e.id then Some(e) else Lookup(s, id)
  {
    var p, k, f := Put(s, e), Find(s, e.id), Find(s, id);
    if id == e.id {
      FindIs(p, id, if k < |s| then k else 0);
    } else if k < |s| {
      FindIs(p, id, f);
    } else {
      assert forall j :: 1 <= j < |p| ==> p[j] == s[j - 1];
      FindIs(p, id, f + 1);
    }
  }

  /** A known pin keeps its place, and so do all others; a new one comes first. */
  lemma PutKeepsPlaces(s: seq<Entry>, e: Entry)
    requires DistinctIds(s)
    ensures Lookup(s, e.id).Some? ==> |Put(s, e)| == |s|
    ensures Lookup(s, e.id).Some? ==> forall i :: 0 <= i < |s| ==> Put(s, e)[i] == if s[i].id == e.id then e else s[i]
    ensures Lookup(s, e.id).None? ==> |Put(s, e)| == |s| + 1 && Put(s, e)[0] == e && Put(s, e)[1..] == s
  {
  }

  /** Unlinking removes one pin and leaves the others alone. */
  lemma DropRemoves(s: seq<Entry>, id: nat, other: nat)
    requires DistinctIds(s)
    ensures Lookup(Drop(s, id), other) == if other == id then None else Lookup(s, other)
  {
    hide Find, Without;
    var p, k, f := Drop(s, id), Find(s, id), Find(s, other);
    if k < |s| {
      FindIs(p, other, if other == id then |p| else if f < k then f else f - 1);
    }
  }

  lemma PutKeepsDistinct(s: seq<Entry>, e: Entry)
    requires DistinctIds(s)
    ensures DistinctIds(Put(s, e))
  {
    hide Find;
  }

  lemma WithoutKeepsDistinct(s: seq<Entry>, k: nat)
    requires DistinctIds(s) && InRange(s) && k < |s|
    ensures DistinctIds(Without(s, k)) && InRange(Without(s, k))
  {
    hide Without;
  }

  // ----- Runs of enabling and disabling -----

  datatype Op = EnableOp(id: nat, trigger: nat, func: nat, data: nat) | DisableOp(id: nat)

  predicate Legal(op: Op) {
    op.id < MAX_ID && (op.EnableOp? ==> op.trigger <= TRIGGER_MAX)
  }

  function Apply(s: seq<Entry>, op: Op): seq<Entry> {
    if !Legal(op) then s
    else match op
      case EnableOp(id, _, func, data) => Put(s, Entry(id, func, data))
      case DisableOp(id) => Drop(s, id)
  }

  function ApplyAll(s: seq<Entry>, ops: seq<Op>): seq<Entry>
    decreases |ops|
  {
    if ops == [] then s else Apply(ApplyAll(s, ops[..|ops| - 1]), ops[|ops| - 1])
  }

  /** The map the list stands for: assignment and removal. */
  function MapApply(m: map<nat, Entry>, op: Op): map<nat, Entry> {
    if !Legal(op) then m
    else match op
      case EnableOp(id, _, func, data) => m[id := Entry(id, func, data)]
      case DisableOp(id) => m - {id}
  }

  function MapApplyAll(m: map<nat, Entry>, ops: seq<Op>): map<nat, Entry>
    decreases |ops|
  {
    if ops == [] then m else MapApply(MapApplyAll(m, ops[..|ops| - 1]), ops[|ops| - 1])
  }

  ghost predicate Refines(s: seq<Entry>, m: map<nat, Entry>) {
    forall id: nat :: Lookup(s, id) == if id in m then Some(m[id]) else None
  }

  lemma ApplyKeepsWellFormed(s: seq<Entry>, op: Op)
    requires DistinctIds(s) && InRange(s)
    ensures DistinctIds(Apply(s, op)) && InRange(Apply(s, op))
  {
    hide Find, Without;
    if Legal(op) && op.DisableOp? && Find(s, op.id) < |s| {
      WithoutKeepsDistinct(s, Find(s, op.id));
    } else if Legal(op) && op.EnableOp? {
      PutKeepsDistinct(s, Entry(op.id, op.func, op.data));
    }
  }

  /** Over every run the list holds each pin at most once and refines the map. */
  lemma {:induction false} EveryRunRefinesMap(s: seq<Entry>, m: map<nat, Entry>, ops: seq<Op>)
    requires DistinctIds(s) && InRange(s) && Refines(s, m)
    ensures DistinctIds(ApplyAll(s, ops)) && InRange(ApplyAll(s, ops))
    ensures Refines(ApplyAll(s, ops), MapApplyAll(m, ops))
    decreases |ops|
  {
    hide DistinctIds, InRange, Lookup, Put, Drop;
    if ops != [] {
      var before, op := ops[..|ops| - 1], ops[|ops| - 1];
      EveryRunRefinesMap(s, m, before);
      var t := ApplyAll(s, before);
      ApplyKeepsWellFormed(t, op);
      forall id: nat
        ensures Lookup(Apply(t, op), id) ==
          if id in MapApply(MapApplyAll(m, before), op) then Some(MapApply(MapApplyAll(m, before), op)[id]) else None
      {
        ApplyTouchesOne(t, op, id);
      }
    }
  }

  lemma ApplyTouchesOne(s: seq<Entry>, op: Op, id: nat)
    requires DistinctIds(s)
    ensures Lookup(Apply(s, op), id) ==
      if !Legal(op) || id != op.id then Lookup(s, id)
      else if op.EnableOp? then Some(Entry(id, op.func, op.data)) else None
  {
    hide Lookup, Put, Drop;
    if op.EnableOp? {
      PutAssigns(s, Entry(op.id, op.func, op.data), id);
    } else {
      DropRemoves(s, op.id, id);
    }
  }

  // ----- The interrupt handler -----

  predicate Pending(status: bv32, id: nat)
    requires id < MAX_ID
  {
    status & ((1 as bv32) << id) != 0
  }

  /** The bit of a pin: 1 for pin 0, and twice as much for each pin after it. */
  function PinBit(id: nat): bv32 {
    if id == 0 then 1 else PinBit(id - 1) * 2
  }

  lemma {:induction false} ShiftIsPinBit(id: nat)
    requires id < 15
    ensures (1 as bv32) << id == PinBit(id)
  {
    if id > 0 {
      ShiftIsPinBit(id - 1);
      OneMoreShift(id);
    }
  }

  lemma OneMoreShift(id: nat)
    requires 0 < id < 15
    ensures (1 as bv32) << id == ((1 as bv32) << (id - 1)) * 2
  {
  }

  /** Pin n is pending exactly when bit n of the status register is set. */
  lemma PendingIsItsBit(status: bv32, id: nat)
    requires id < 15
    ensures Pending(status, id) <==> status & PinBit(id) != 0
  {
    hide PinBit;
    ShiftIsPinBit(id);
  }

  lemma {:induction false} NothingPending(s: seq<Entry>, script: Script, n: nat)
    requires n <= MAX_ID
    ensures Handled(s, 0, script, n) == Trace(s, [])
  {
    if n > 0 {
      NothingPending(s, script, n - 1);
    }
  }

  lemma HandledNone(s: seq<Entry>, status: bv32, script: Script)
    ensures Handled(s, status, script, 0) == Trace(s, [])
  {
  }

  lemma HandledOneMore(s: seq<Entry>, status: bv32, script: Script, id: nat)
    requires id < MAX_ID
    ensures Handled(s, status, script, id + 1) == if Pending(status, id)
      then Served(Handled(s, status, script, id), script, id) else Handled(s, status, script, id)
  {
  }

  lemma DropAbsent(s: seq<Entry>, id: nat)
    ensures Lookup(s, id).None? ==> Drop(s, id) == s
  {
  }

  /** What a callback does when it is called with its registration, given the number of calls before it. */
  type Script = (Entry, nat) -> seq<Op>

  datatype Trace = Trace(entries: seq<Entry>, calls: seq<Entry>)

  /** A pending pin is served: its callback, if it has one, is called. */
  function Served(t: Trace, script: Script, id: nat): Trace {
    var e := Lookup(t.entries, id);
    if e.Some? then Trace(ApplyAll(t.entries, script(e.value, |t.calls|)), t.calls + [e.value]) else t
  }

  /** The list and the calls made after the pins below n have been looked at. */
  function Handled(s: seq<Entry>, status: bv32, script: Script, n: nat): Trace
    requires n <= MAX_ID
  {
    if n == 0 then Trace(s, [])
    else
      var t := Handled(s, status, script, n - 1);
      if Pending(status, n - 1) then Served(t, script, n - 1) else t
  }

  /** Pending pins below n, in ascending order. */
  predicate Ascending(calls: seq<Entry>, status: bv32, n: nat)
    requires n <= MAX_ID
  {
    && (forall i :: 0 <= i < |calls| ==> calls[i].id < n && Pending(status, calls[i].id))
    && (forall i, j :: 0 <= i < j < |calls| ==> calls[i].id < calls[j].id)
  }

  /** The calls go through the pending pins in ascending order, each pin once. */
  lemma {:induction false} CallsAscend(s: seq<Entry>, status: bv32, script: Script, n: nat)
    requires n <= MAX_ID
    ensures Ascending(Handled(s, status, script, n).calls, status, n)
  {
    hide Pending, ApplyAll, Lookup, Ascending;
    if n == 0 {
      NoCallsAscend(status);
    } else {
      CallsAscend(s, status, script, n - 1);
      var t := Handled(s, status, script, n - 1);
      LookupId(t.entries, n - 1);
      OneMoreCall(t.calls, status, n - 1, Lookup(t.entries, n - 1));
    }
  }

  lemma NoCallsAscend(status: bv32)
    ensures Ascending([], status, 0)
  {
  }

  lemma OneMoreCall(calls: seq<Entry>, status: bv32, n: nat, e: Option<Entry>)
    requires n < MAX_ID && Ascending(calls, status, n) && (e.Some? ==> e.value.id == n)
    ensures Ascending(calls, status, n + 1)
    ensures Pending(status, n) && e.Some? ==> Ascending(calls + [e.value], status, n + 1)
  {
    hide Pending;
  }

  lemma LookupId(s: seq<Entry>, id: nat)
    ensures Lookup(s, id).Some? ==> Lookup(s, id).value.id == id
  {
  }

  /** A pin is called exactly when it is pending and registered at its turn, with the registration of then. */
  lemma {:induction false} CallsAreComplete(s: seq<Entry>, status: bv32, script: Script, n: nat, id: nat)
    requires id < n <= MAX_ID
    ensures var e := Lookup(Handled(s, status, script, id).entries, id);
      forall c: Entry :: (c in Handled(s, status, script, n).calls && c.id == id
                          <==> Pending(status, id) && e == Some(c))
  {
    hide Pending, ApplyAll, Lookup;
    CallsAscend(s, status, script, n - 1);
    var t := Handled(s, status, script, n - 1);
    LookupId(t.entries, n - 1);
    if id < n - 1 {
      CallsAreComplete(s, status, script, n - 1, id);
    } else {
      assert forall i :: 0 <= i < |t.calls| ==> t.calls[i].id < id;
    }
  }

  /** What the callbacks of these calls enable and disable, in order. */
  function Reactions(calls: seq<Entry>, script: Script): seq<Op>
    decreases |calls|
  {
    if calls == [] then []
    else
      var n := |calls| - 1;
      Reactions(calls[..n], script) + script(calls[n], n)
  }

  lemma {:induction false} ApplyJoined(s: seq<Entry>, x: seq<Op>, y: seq<Op>)
    ensures ApplyAll(s, x + y) == ApplyAll(ApplyAll(s, x), y)
    decreases |y|
  {
    hide Apply;
    if y == [] {
      assert x + y == x;
    } else {
      var n := |y| - 1;
      assert (x + y)[..|x + y| - 1] == x + y[..n] && (x + y)[|x + y| - 1] == y[n];
      ApplyJoined(s, x, y[..n]);
    }
  }

  /** The list that is left is the one before the interrupt with all that the callbacks did to it, in their order. */
  lemma {:induction false} ReactionsTakeEffect(s: seq<Entry>, status: bv32, script: Script, n: nat)
    requires n <= MAX_ID
    ensures var t := Handled(s, status, script, n);
      t.entries == ApplyAll(s, Reactions(t.calls, script))
  {
    hide Pending, Lookup, ApplyAll;
    if n == 0 {
      NothingApplied(s);
    } else {
      ReactionsTakeEffect(s, status, script, n - 1);
      var t := Handled(s, status, script, n - 1);
      var e := Lookup(t.entries, n - 1);
      if e.Some? {
        OneMoreReaction(t.calls, e.value, script);
        ApplyJoined(s, Reactions(t.calls, script), script(e.value, |t.calls|));
      }
    }
  }

  lemma NothingApplied(s: seq<Entry>)
    ensures ApplyAll(s, []) == s
  {
  }

  lemma OneMoreReaction(calls: seq<Entry>, e: Entry, script: Script)
    ensures Reactions(calls + [e], script) == Reactions(calls, script) + script(e, |calls|)
  {
    assert (calls + [e])[..|calls|] == calls;
  }

  /** No callback enables or disables the pin. */
  ghost predicate LeavesAlone(script: Script, id: nat) {
    forall e, k :: forall op <- script(e, k) :: op.id != id
  }

  lemma {:induction false} OthersLeaveAlone(s: seq<Entry>, ops: seq<Op>, id: nat)
    requires DistinctIds(s) && InRange(s) && forall op <- ops :: op.id != id
    ensures Lookup(ApplyAll(s, ops), id) == Lookup(s, id)
    ensures DistinctIds(ApplyAll(s, ops)) && InRange(ApplyAll(s, ops))
    decreases |ops|
  {
    hide DistinctIds, InRange, Lookup, Apply;
    if ops != [] {
      OthersLeaveAlone(s, ops[..|ops| - 1], id);
      var t := ApplyAll(s, ops[..|ops| - 1]);
      ApplyTouchesOne(t, ops[|ops| - 1], id);
      ApplyKeepsWellFormed(t, ops[|ops| - 1]);
    }
  }

  lemma {:induction false} StaysRegistered(s: seq<Entry>, status: bv32, script: Script, n: nat, id: nat)
    requires DistinctIds(s) && InRange(s) && n <= MAX_ID && LeavesAlone(script, id)
    ensures var t := Handled(s, status, script, n).entries;
      Lookup(t, id) == Lookup(s, id) && DistinctIds(t) && InRange(t)
  {
    hide DistinctIds, InRange, Lookup, ApplyAll, Pending;
    if n > 0 {
      StaysRegistered(s, status, script, n - 1, id);
      var t := Handled(s, status, script, n - 1);
      var e := Lookup(t.entries, n - 1);
      if e.Some? {
        OthersLeaveAlone(t.entries, script(e.value, |t.calls|), id);
      }
    }
  }

  /** A pin the callbacks leave alone is called exactly when it was pending and registered at the interrupt. */
  lemma UntouchedPinsAreCalled(s: seq<Entry>, status: bv32, script: Script, id: nat)
    requires DistinctIds(s) && InRange(s) && id < MAX_ID && LeavesAlone(script, id)
    ensures forall c: Entry :: (c in Handled(s, status, script, MAX_ID).calls && c.id == id
                                <==> Pending(status, id) && Lookup(s, id) == Some(c))
  {
    hide Handled, Lookup, Pending, LeavesAlone;
    CallsAreComplete(s, status, script, MAX_ID, id);
    StaysRegistered(s, status, script, id, id);
  }

  // ----- The heap -----

  ghost function At(nodes: seq<Node>, i: nat): Node? {
    if i < |nodes| then nodes[i] else null
  }

  ghost predicate LinksTo(n: Node, next: Node?)
    reads n`next
  {
    n.next == next
  }

  ghost predicate Holds(n: Node, e: Entry)
    reads n`func, n`data
  {
    n.id == e.id && n.func == e.func && n.data == e.data
  }

  ghost predicate Chained(head: Node?, nodes: seq<Node>, entries: seq<Entry>)
    reads nodes
  {
    && |nodes| == |entries| && head == At(nodes, 0)
    && (forall i :: 0 <= i < |nodes| ==> LinksTo(nodes[i], At(nodes, i + 1)))
    && (forall i :: 0 <= i < |nodes| ==> Holds(nodes[i], entries[i]))
    && DistinctIds(entries) && InRange(entries)
  }

  /** All links but the one of node k are in place, and they go around it. */
  ghost predicate ChainedAround(head: Node?, nodes: seq<Node>, entries: seq<Entry>, k: nat)
    requires k < |nodes|
    reads nodes
  {
    && |nodes| == |entries| && head == (if k == 0 then At(nodes, 1) else nodes[0])
    && (forall i :: 0 <= i < |nodes| && i != k ==> LinksTo(nodes[i], At(nodes, if i + 1 == k then k + 1 else i + 1)))
    && (forall i :: 0 <= i < |nodes| ==> Holds(nodes[i], entries[i]))
    && DistinctIds(entries) && InRange(entries)
  }

  /** Such a node can be left out. */
  lemma LeaveOut(head: Node?, nodes: seq<Node>, entries: seq<Entry>, k: nat)
    requires k < |nodes| && ChainedAround(head, nodes, entries, k)
    ensures Chained(head, Without(nodes, k), Without(entries, k))
  {
    hide DistinctIds, InRange, Without, LinksTo, Holds, ChainedAround;
    LeaveOutSize(head, nodes, entries, k);
    var ns, es := Without(nodes, k), Without(entries, k);
    forall i | 0 <= i < |ns|
      ensures LinksTo(ns[i], At(ns, i + 1)) && Holds(ns[i], es[i])
    {
      LeaveOutAt(head, nodes, entries, k, i);
    }
  }

  lemma LeaveOutSize(head: Node?, nodes: seq<Node>, entries: seq<Entry>, k: nat)
    requires k < |nodes| && ChainedAround(head, nodes, entries, k)
    ensures |nodes| == |entries| && head == At(Without(nodes, k), 0)
    ensures DistinctIds(Without(entries, k)) && InRange(Without(entries, k))
  {
    hide DistinctIds, InRange, Without, LinksTo, Holds;
    WithoutKeepsDistinct(entries, k);
  }

  lemma LeaveOutAt(head: Node?, nodes: seq<Node>, entries: seq<Entry>, k: nat, i: nat)
    requires k < |nodes| == |entries| && ChainedAround(head, nodes, entries, k) && i < |nodes| - 1
    ensures LinksTo(Without(nodes, k)[i], At(Without(nodes, k), i + 1))
    ensures Holds(Without(nodes, k)[i], Without(entries, k)[i])
  {
    hide DistinctIds, InRange, Without, LinksTo, Holds;
    var j := if i < k then i else i + 1;
    assert LinksTo(nodes[j], At(nodes, if j + 1 == k then k + 1 else j + 1));
  }

  class CallbackList {
    var head: Node?
    /** How often the critical section was entered and not left. */
    var critical: int
    /** The nodes allocated and not freed, in list order, and what they hold. */
    ghost var nodes: seq<Node>
    ghost var entries: seq<Entry>

    /** The list runs through the live nodes and ends; each pin occurs once. */
    ghost predicate Valid()
      reads this`head, this`nodes, this`entries, nodes
    {
      Chained(head, nodes, entries)
    }

    constructor ()
      ensures Valid() && entries == [] && nodes == [] && critical == 0
    {
      head, critical := null, 0;
      nodes, entries := [], [];
    }

    /** The search loop: the node with the pin, always through live nodes. */
    method Search(id: nat) returns (p: Node?, ghost k: nat)
      requires Valid()
      ensures k == Find(entries, id) && p == At(nodes, k)
    {
      p, k := head, 0;
      while p != null
        invariant k <= |nodes| && p == At(nodes, k)
        invariant forall j :: 0 <= j < k ==> entries[j].id != id
        decreases |nodes| - k
      {
        assert p in nodes;
        assert Holds(nodes[k], entries[k]) && LinksTo(nodes[k], At(nodes, k + 1));
        if p.id == id {
          break;
        }
        p := p.next;
        k := k + 1;
      }
      FindIs(entries, id, k);
    }

    /** Overwriting one registration. */
    method Update(p: Node, func: nat, data: nat, ghost k: nat)
      requires Valid() && k < |nodes| && p == nodes[k]
      modifies this`entries, p`func, p`data
      ensures Valid() && nodes == old(nodes) && entries == old(entries)[k := Entry(p.id, func, data)]
    {
      assert Holds(p, entries[k]);
      ghost var before := entries;
      p.func := func;
      p.data := data;
      entries := entries[k := Entry(p.id, func, data)];
      forall i | 0 <= i < |nodes|
        ensures Holds(nodes[i], entries[i])
      {
        assert old(Holds(nodes[i], entries[i]));
        if i != k {
          assert before[i].id != before[k].id;
          assert nodes[i] != p;
        }
      }
      assert forall i :: 0 <= i < |nodes| ==> old(LinksTo(nodes[i], At(nodes, i + 1)));
    }

    /** Pushing a new node in front. */
    method Push(id: nat, func: nat, data: nat)
      requires Valid() && id < MAX_ID && Find(entries, id) == |entries|
      modifies this`head, this`nodes, this`entries
      ensures Valid() && entries == [Entry(id, func, data)] + old(entries)
      ensures |nodes| > 0 && nodes[1..] == old(nodes) && fresh(nodes[0])
    {
      hide Find;
      var n := new Node(id, func, data, head);
      ghost var were := nodes;
      head := n;
      nodes := [n] + nodes;
      entries := [Entry(id, func, data)] + entries;
      forall i | 0 <= i < |nodes|
        ensures LinksTo(nodes[i], At(nodes, i + 1)) && Holds(nodes[i], entries[i])
      {
        if i > 0 {
          assert nodes[i] == were[i - 1] && old(LinksTo(nodes[i - 1], At(nodes, i - 1 + 1)));
          assert old(Holds(nodes[i - 1], entries[i - 1]));
        }
      }
    }

    /** qapi_GPIO_Enable_Interrupt. When memory runs out it returns from inside its critical section. */
    method Enable(id: nat, trigger: nat, func: nat, data: nat, memory: bool) returns (status: Status)
      requires Valid()
      modifies this, nodes
      ensures Valid() && fresh(set n <- nodes | n !in old(nodes))
      ensures status ==
        if id > 14 || trigger > 3 then InvalidParam
        else if memory || Lookup(old(entries), id).Some? then Ok else NoMemory
      ensures critical == if status == NoMemory then old(critical) + 1 else old(critical)
      ensures entries == if status == Ok then Put(old(entries), Entry(id, func, data)) else old(entries)
    {
      hide Valid, Find;
      SameSize();
      if id > MAX_ID - 1 || trigger > TRIGGER_MAX {
        return InvalidParam;
      }
      critical := critical + 1;
      var p, k := Search(id);
      if p != null {
        HoldsAt(k);
        Update(p, func, data, k);
      } else {
        if !memory {
          return NoMemory;
        }
        ghost var were := nodes;
        Push(id, func, data);
        assert forall n <- nodes :: n == nodes[0] || n in were;
      }
      critical := critical - 1;
      return Ok;
    }

    lemma SameSize()
      requires Valid()
      ensures |nodes| == |entries| && head == At(nodes, 0)
    {
    }

    lemma HoldsAt(k: nat)
      requires Valid() && k < |nodes|
      ensures nodes[k].id == entries[k].id && nodes[k].next == At(nodes, k + 1)
    {
      assert Holds(nodes[k], entries[k]) && LinksTo(nodes[k], At(nodes, k + 1));
    }

    /** Looking behind the head for the pin: its node and the one before. */
    method SearchBehind(id: nat) returns (prev: Node, p: Node?, ghost k: nat)
      requires Valid() && head != null && head.id != id
      ensures k == Find(entries, id) && 1 <= k <= |nodes| && prev == nodes[k - 1] && p == At(nodes, k)
    {
      hide Valid, Find;
      SameSize();
      HoldsAt(0);
      FindFrom(entries, id, 0);
      prev, p, k := head, head.next, 1;
      while p != null
        invariant 1 <= k <= Find(entries, id) && p == At(nodes, k) && prev == nodes[k - 1]
        decreases |nodes| - k
      {
        assert p in nodes;
        HoldsAt(k);
        FindFrom(entries, id, k);
        if p.id == id {
          break;
        }
        prev := p;
        p := p.next;
        k := k + 1;
      }
    }

    /** qapi_GPIO_Disable_Interrupt. The node is freed before its predecessor is linked past it. */
    method Disable(id: nat) returns (status: Status)
      requires Valid()
      modifies this, nodes
      ensures critical == old(critical)
      ensures Valid() && forall n <- nodes :: n in old(nodes)
      ensures status ==
        if id > 14 then InvalidParam else if Lookup(old(entries), id).Some? then Ok else Error
      ensures entries == if status == Ok then Drop(old(entries), id) else old(entries)
    {
      hide Valid, Find, Without;
      SameSize();
      if id > MAX_ID - 1 {
        return InvalidParam;
      }
      critical := critical + 1;
      if head == null {
        FindIs(entries, id, 0);
        critical := critical - 1;
        return Error;
      }
      HoldsAt(0);
      if head.id == id {
        FindIs(entries, id, 0);
        UnlinkHead();
        critical := critical - 1;
        return Ok;
      }
      var prev, p, k := SearchBehind(id);
      if p == null {
        critical := critical - 1;
        return Error;
      }
      HoldsAt(k);
      var next := p.next;
      Unlink(prev, next, k);
      critical := critical - 1;
      return Ok;
    }

    /** One callback: whatever it enables and disables. */
    method Callback(ops: seq<Op>)
      requires Valid()
      modifies this, nodes
      ensures critical == old(critical)
      ensures Valid() && fresh(set n <- nodes | n !in old(nodes))
      ensures entries == ApplyAll(old(entries), ops)
    {
      hide Valid, Put, Drop, Lookup;
      ghost var start := entries;
      assert ops[..0] == [];
      for i := 0 to |ops|
        invariant Valid() && fresh(set n <- nodes | n !in old(nodes)) && critical == old(critical)
        invariant entries == ApplyAll(start, ops[..i])
      {
        assert ops[..i + 1][..i] == ops[..i];
        match ops[i]
        case EnableOp(id, trigger, func, data) =>
          var _ := Enable(id, trigger, func, data, true);
        case DisableOp(id) =>
          DropAbsent(entries, id);
          var _ := Disable(id);
      }
      assert ops[..|ops|] == ops;
    }

    /** The callback's registration is read before the call and not touched after it. */
    method Serve(id: nat, script: Script, before: seq<Entry>) returns (calls: seq<Entry>)
      requires Valid()
      modifies this, nodes
      ensures critical == old(critical)
      ensures Valid() && fresh(set n <- nodes | n !in old(nodes))
      ensures Trace(entries, calls) == Served(Trace(old(entries), before), script, id)
    {
      hide Valid, ApplyAll, Find;
      SameSize();
      calls := before;
      var p, k := Search(id);
      if p != null {
        HoldsAll(k);
        var e := Entry(p.id, p.func, p.data);
        Callback(script(e, |calls|));
        calls := calls + [e];
      }
    }

    /** GPIO_IntHandler. */
    method IntHandler(status: bv32, script: Script) returns (calls: seq<Entry>)
      requires Valid()
      modifies this, nodes
      ensures critical == old(critical)
      ensures Valid() && fresh(set n <- nodes | n !in old(nodes))
      ensures Trace(entries, calls) == Handled(old(entries), status, script, MAX_ID)
    {
      hide Valid, Handled, Served, Pending;
      ghost var start := entries;
      calls := [];
      HandledNone(start, status, script);
      if status != 0 {
        for id := 0 to MAX_ID
          invariant Valid() && fresh(set n <- nodes | n !in old(nodes)) && critical == old(critical)
          invariant Trace(entries, calls) == Handled(start, status, script, id)
        {
          HandledOneMore(start, status, script, id);
          if Pending(status, id) {
            calls := Serve(id, script, calls);
          }
        }
      } else {
        NothingPending(start, script, MAX_ID);
      }
    }

    lemma HoldsAll(k: nat)
      requires Valid() && k < |nodes|
      ensures Entry(nodes[k].id, nodes[k].func, nodes[k].data) == entries[k]
    {
      assert Holds(nodes[k], entries[k]);
    }

    method UnlinkHead()
      requires Valid() && head != null
      modifies this`head, this`nodes, this`entries
      ensures Valid() && nodes == Without(old(nodes), 0) && entries == Without(old(entries), 0)
    {
      hide Find, DistinctIds, InRange, Holds, LinksTo, Without;
      HoldsAt(0);
      head := head.next;
      LeaveOut(head, nodes, entries, 0);
      nodes, entries := Without(nodes, 0), Without(entries, 0);
    }

    method Unlink(prev: Node, next: Node?, ghost k: nat)
      requires Valid() && 1 <= k < |nodes| && prev == nodes[k - 1] && next == At(nodes, k + 1)
      modifies this`nodes, this`entries, prev`next
      ensures Valid() && nodes == Without(old(nodes), k)
      ensures entries == Without(old(entries), k)
    {
      hide Chained, ChainedAround, Without;
      GoAround(prev, next, k);
      LeaveOut(head, nodes, entries, k);
      nodes, entries := Without(nodes, k), Without(entries, k);
    }

    method GoAround(prev: Node, next: Node?, ghost k: nat)
      requires Valid() && 1 <= k < |nodes| && prev == nodes[k - 1] && next == At(nodes, k + 1)
      modifies prev`next
      ensures ChainedAround(head, nodes, entries, k)
    {
      prev.next := next;
      forall i | 0 <= i < |nodes| && i != k
        ensures LinksTo(nodes[i], At(nodes, if i + 1 == k then k + 1 else i + 1))
      {
        assert old(LinksTo(nodes[i], At(nodes, i + 1)));
        if i != k - 1 {
          assert old(Holds(nodes[i], entries[i]) && Holds(nodes[k - 1], entries[k - 1]));
          assert nodes[i] != prev;
        }
      }
      assert forall i :: 0 <= i < |nodes| ==> old(Holds(nodes[i], entries[i]));
    }
  }
}
