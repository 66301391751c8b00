/**
 The event loop's lifecycle (`startEventLoop`/`stopEventLoop`,
 src/bluetooth_eventloop.c:333-430) and one pass of its worker loop
 (src/bluetooth_eventloop.c:198-248).

 Thread creation, joining, the mutex, `socketpair`, `poll` and the bus
 library's dispatch queue are outside the model: the control reader's
 descriptor, the readiness `poll` reported and the bytes waiting on the
 control socket are parameters.
 */
module EventLoop {
  import opened Optional
  import opened Bytes
  import opened Flags
  import opened Watches
  import opened Control

  /** DEFAULT_INITIAL_POLLFD_COUNT (include/bluetooth_common.h:34). */
  const DefaultInitialPollfdCount: nat := 8

  /**
   The part of the event-loop singleton the lifecycle touches. `table == None`
   stands for `pollData == NULL` with count and size 0.
   */
  datatype Loop = Loop(table: Option<Table>, running: bool)

  const Stopped: Loop := Loop(None, false)

  /** The `short` holding only POLLIN. */
  function PollInOnly(c: FlagBits): (w: Word16)
    ensures forall i :: 0 <= i < 16 ==> (w[i] <==> i == c.pollIn)
  {
    seq(16, i => i == c.pollIn)
  }

  /** A freshly started table: capacity 8, one live slot, the control reader polled for input. */
  ghost predicate Fresh(t: Table, c: FlagBits, controlFd: Int32) {
    && t.size == DefaultInitialPollfdCount
    && t.Count() == 1
    && t.entries[0] == Entry(controlFd, PollInOnly(c), NoEvents, 0)
  }

  /** The steps of `startEventLoop` that can fail once no table exists yet. */
  datatype StartFailure = PollDataAllocation | WatchDataAllocation | SocketPair | SetUp

  datatype Started = Started(code: int, loop: Loop)

  /**
   `startEventLoop`. It clears `running` before anything else, so even the
   refused second start leaves `running` false (src/bluetooth_eventloop.c:340-346).
   Every later failure releases whatever was allocated (src/bluetooth_eventloop.c:384-400).
   */
  function Start(s: Loop, c: FlagBits, controlFd: Int32, failure: Option<StartFailure>): (r: Started)
    ensures r.code == 0 <==> s.table.None? && failure.None?
    ensures r.code == 0 || r.code == -1
    ensures !r.loop.running
    ensures s.table.Some? ==> r.loop.table == s.table
    ensures s.table.None? && failure.Some? ==> r.loop == Stopped
    ensures r.code == 0 ==> r.loop.table.Some? && Fresh(r.loop.table.value, c, controlFd)
  {
    if s.table.Some? then Started(-1, s.(running := false))
    else if failure.Some? then Started(-1, Stopped)
    else
      var control := Entry(controlFd, PollInOnly(c), NoEvents, 0);
      Started(0, Loop(Some(Table([control], DefaultInitialPollfdCount)), false))
  }

  /** The worker thread marks the loop running as it begins (src/bluetooth_eventloop.c:196). */
  function WorkerBegins(s: Loop): (r: Loop)
    ensures r.running && r.table == s.table
  {
    s.(running := true)
  }

  datatype Stopping = Stopping(loop: Loop, written: seq<byte>)

  /**
   `stopEventLoop`: a running loop is sent EXIT (then joined) and its table
   released; a stopped loop only has `running` cleared.
   */
  function Stop(s: Loop): (r: Stopping)
    ensures r.loop == Stopped
    ensures s.table.Some? ==> Decode(r.written) == Decoded([Exit], Exited)
    ensures s.table.None? ==> r.written == []
  {
    if s.table.Some? then Stopping(Stopped, ExitBytes) else Stopping(Stopped, [])
  }

  /** A started table satisfies the table invariants. */
  lemma FreshIsValid(t: Table, c: FlagBits, controlFd: Int32)
    requires Fresh(t, c, controlFd)
    ensures t.Valid()
  {
  }

  /** Start, stop, start again: the second start succeeds and a start over a live table fails. */
  lemma LifecycleCycle(c: FlagBits, controlFd: Int32, s: Loop)
    ensures var first := Start(Stopped, c, controlFd, None);
      && first.code == 0
      && Start(WorkerBegins(first.loop), c, controlFd, None).code == -1
      && Start(Stop(WorkerBegins(first.loop)).loop, c, controlFd, None).code == 0
    ensures Stop(Stop(s).loop) == Stopping(Stopped, [])
  {
  }

  /** What one pass hands to `dbus_watch_handle`. */
  datatype Delivery = Delivery(handle: Handle, flags: Word32)

  predicate Ready(e: Entry) {
    e.revents != NoEvents
  }

  /** Slot `k` is the first slot `poll` marked ready. */
  ghost predicate FirstReady(t: Table, k: int) {
    && 0 <= k < |t.entries|
    && Ready(t.entries[k])
    && forall j :: 0 <= j < k ==> !Ready(t.entries[j])
  }

  /** Slot `k` is the first ready slot from `from` on that is not the control reader. */
  ghost predicate NextReadyWatch(t: Table, controlFd: Int32, from: int, k: int) {
    && 0 <= from <= k < |t.entries|
    && Ready(t.entries[k]) && t.entries[k].fd != controlFd
    && forall j :: from <= j < k ==> !Ready(t.entries[j]) || t.entries[j].fd == controlFd
  }

  /** The table with slot `k`'s returned events cleared. */
  function Cleared(t: Table, k: nat): (r: Table)
    requires k < |t.entries|
    ensures |r.entries| == |t.entries| && r.size == t.size
    ensures !Ready(r.entries[k])
    ensures forall j :: 0 <= j < |t.entries| && j != k ==> r.entries[j] == t.entries[j]
  {
    t.(entries := t.entries[k := t.entries[k].(revents := NoEvents)])
  }

  lemma ClearReventsKeepsValid(t: Table, i: nat)
    requires t.Valid() && i < |t.entries|
    ensures Cleared(t, i).Valid()
  {
    var r := Cleared(t, i);
    assert forall j :: 0 <= j < |t.entries| ==>
      r.entries[j].fd == t.entries[j].fd && r.entries[j].events == t.entries[j].events;
  }

  /** Draining an empty socket reads nothing and changes nothing. */
  lemma DrainNothing(t: Table, c: FlagBits, grow: nat -> bool)
    ensures Decode([]) == Decoded([], Drained)
    ensures ApplyAll(t, c, Decode([]).cmds, grow) == t
  {
  }

  /** At most one slot is the first ready one. */
  lemma FirstReadyUnique(t: Table, i: int)
    requires FirstReady(t, i)
    ensures forall k :: FirstReady(t, k) ==> k == i
  {
  }

  /** A pass whose first ready slot `k` is a watch: that watch is handed over and its events cleared. */
  ghost predicate DeliversFirst(t: Table, c: FlagBits, k: int, r: Table, delivered: Option<Delivery>, halt: Halt)
    requires 0 <= k < |t.entries|
  {
    && halt == Drained
    && delivered == Some(Delivery(t.entries[k].handle, UnixEventsToDbusFlags(c, t.entries[k].revents)))
    && r == Cleared(t, k)
  }

  /**
   A pass whose first ready slot `k` is the control reader: the halt is the
   decoder's, the table is the one the decoded commands give; when the socket
   drains, the scan goes on after `k` over that table and hands over its first
   ready watch, if there is one.
   */
  ghost predicate AfterDrain(t: Table, c: FlagBits, controlFd: Int32, pending: seq<byte>, grow: nat -> bool,
    k: int, r: Table, delivered: Option<Delivery>, halt: Halt)
    requires 0 <= k
  {
    var d := ApplyAll(t, c, Decode(pending).cmds, grow);
    && halt == Decode(pending).halt
    && (halt != Drained ==> delivered.None?)
    && (delivered.None? ==> r == d)
    && (halt == Drained && delivered.None? ==>
         forall j :: k < j < |d.entries| && Ready(d.entries[j]) ==> d.entries[j].fd == controlFd)
    && (delivered.Some? ==>
         exists j :: NextReadyWatch(d, controlFd, k + 1, j)
           && delivered.value == Delivery(d.entries[j].handle, UnixEventsToDbusFlags(c, d.entries[j].revents))
           && r == Cleared(d, j))
  }

  /**
   What one pass does, by the first slot `poll` marked ready: with none, nothing
   changes; a watch is handed over; the control reader drains the socket first.
   */
  ghost predicate PassOutcome(t: Table, c: FlagBits, controlFd: Int32, pending: seq<byte>, grow: nat -> bool,
    r: Table, delivered: Option<Delivery>, halt: Halt)
  {
    && ((forall k :: 0 <= k < |t.entries| ==> !Ready(t.entries[k])) ==>
         r == t && delivered.None? && halt == Drained)
    && (forall k :: FirstReady(t, k) && t.entries[k].fd != controlFd ==>
         DeliversFirst(t, c, k, r, delivered, halt))
    && (forall k :: FirstReady(t, k) && t.entries[k].fd == controlFd ==>
         AfterDrain(t, c, controlFd, pending, grow, k, r, delivered, halt))
  }

  lemma PassNoneReady(t: Table, c: FlagBits, controlFd: Int32, pending: seq<byte>, grow: nat -> bool)
    requires forall k :: 0 <= k < |t.entries| ==> !Ready(t.entries[k])
    ensures PassOutcome(t, c, controlFd, pending, grow, t, None, Drained)
  {
  }

  lemma PassDeliversFirst(t: Table, c: FlagBits, controlFd: Int32, pending: seq<byte>, grow: nat -> bool, i: int)
    requires FirstReady(t, i) && t.entries[i].fd != controlFd
    ensures var e := t.entries[i];
      PassOutcome(t, c, controlFd, pending, grow, Cleared(t, i),
        Some(Delivery(e.handle, UnixEventsToDbusFlags(c, e.revents))), Drained)
  {
    FirstReadyUnique(t, i);
  }

  lemma PassStopsInDrain(t: Table, c: FlagBits, controlFd: Int32, pending: seq<byte>, grow: nat -> bool, i: int)
    requires FirstReady(t, i) && t.entries[i].fd == controlFd
    requires Decode(pending).halt != Drained
    ensures PassOutcome(t, c, controlFd, pending, grow,
      ApplyAll(t, c, Decode(pending).cmds, grow), None, Decode(pending).halt)
  {
    FirstReadyUnique(t, i);
  }

  lemma PassEndsAfterDrain(t: Table, c: FlagBits, controlFd: Int32, pending: seq<byte>, grow: nat -> bool, i: int)
    requires FirstReady(t, i) && t.entries[i].fd == controlFd
    requires Decode(pending).halt == Drained
    requires var d := ApplyAll(t, c, Decode(pending).cmds, grow);
      forall j :: i < j < |d.entries| ==> !Ready(d.entries[j]) || d.entries[j].fd == controlFd
    ensures PassOutcome(t, c, controlFd, pending, grow, ApplyAll(t, c, Decode(pending).cmds, grow), None, Drained)
  {
    FirstReadyUnique(t, i);
  }

  lemma PassDeliversAfterDrain(t: Table, c: FlagBits, controlFd: Int32, pending: seq<byte>, grow: nat -> bool,
    i: int, j: int)
    requires FirstReady(t, i) && t.entries[i].fd == controlFd
    requires Decode(pending).halt == Drained
    requires NextReadyWatch(ApplyAll(t, c, Decode(pending).cmds, grow), controlFd, i + 1, j)
    ensures var d := ApplyAll(t, c, Decode(pending).cmds, grow);
      PassOutcome(t, c, controlFd, pending, grow, Cleared(d, j),
        Some(Delivery(d.entries[j].handle, UnixEventsToDbusFlags(c, d.entries[j].revents))), Drained)
  {
    FirstReadyUnique(t, i);
  }

  /** The scan up to the first slot `poll` marked ready; `|t.entries|` when there is none. */
  method FirstReadySlot(t: Table) returns (i: int)
    ensures 0 <= i <= |t.entries|
    ensures i < |t.entries| ==> FirstReady(t, i)
    ensures i == |t.entries| ==> forall k :: 0 <= k < |t.entries| ==> !Ready(t.entries[k])
  {
    i := 0;
    while i < |t.entries| && !Ready(t.entries[i])
      invariant 0 <= i <= |t.entries|
      invariant forall j :: 0 <= j < i ==> !Ready(t.entries[j])
    {
      i := i + 1;
    }
  }

  /**
   The scan after the socket was drained: from slot `from` on, a ready control
   reader finds the socket empty and changes nothing, and the scan stops at the
   first other ready slot; `|t.entries|` when there is none.
   */
  method NextWatchSlot(t: Table, controlFd: Int32, from: nat) returns (i: int)
    requires from <= |t.entries|
    ensures from <= i <= |t.entries|
    ensures i < |t.entries| ==> NextReadyWatch(t, controlFd, from, i)
    ensures i == |t.entries| ==>
      forall j :: from <= j < |t.entries| ==> !Ready(t.entries[j]) || t.entries[j].fd == controlFd
  {
    i := from;
    while i < |t.entries|
      invariant from <= i <= |t.entries|
      invariant forall j :: from <= j < i ==> !Ready(t.entries[j]) || t.entries[j].fd == controlFd
    {
      var e := t.entries[i];
      if Ready(e) && e.fd != controlFd {
        return;
      }
      // a ready control reader here finds the socket empty, and draining nothing changes nothing (DrainNothing)
      i := i + 1;
    }
  }

  /**
   One pass of the `for` loop over the table after `poll` returned
   (src/bluetooth_eventloop.c:199-243). Slots with no returned events are
   skipped. The first ready control reader drains `pending`: reading EXIT or
   blocking on an incomplete record ends the pass; a drained socket lets the
   scan go on over the edited table, and a later control slot finds the socket
   empty. The first other ready slot is handed to the bus library with its
   events converted, its `revents` cleared, and the pass ends there, since
   handling it may add or remove watches.
   */
  method Iterate(t: Table, c: FlagBits, controlFd: Int32, pending: seq<byte>, grow: nat -> bool)
    returns (r: Table, delivered: Option<Delivery>, halt: Halt)
    ensures t.Valid() ==> r.Valid()
    ensures delivered.Some? ==> halt == Drained
    ensures PassOutcome(t, c, controlFd, pending, grow, r, delivered, halt)
  {
    var k := FirstReadySlot(t);
    if k == |t.entries| {
      PassNoneReady(t, c, controlFd, pending, grow);
      return t, None, Drained;
    }
    var e := t.entries[k];
    if e.fd != controlFd {
      if t.Valid() {
        ClearReventsKeepsValid(t, k);
      }
      PassDeliversFirst(t, c, controlFd, pending, grow, k);
      return Cleared(t, k), Some(Delivery(e.handle, UnixEventsToDbusFlags(c, e.revents))), Drained;
    }
    r, halt := DrainControl(t, c, pending, grow);
    if t.Valid() {
      ApplyAllKeepsValid(t, c, Decode(pending).cmds, grow);
    }
    if halt != Drained {
      PassStopsInDrain(t, c, controlFd, pending, grow, k);
      return r, None, halt;
    }
    var i := NextWatchSlot(r, controlFd, if k + 1 <= |r.entries| then k + 1 else |r.entries|);
    if i == |r.entries| {
      PassEndsAfterDrain(t, c, controlFd, pending, grow, k);
      return r, None, Drained;
    }
    var w := r.entries[i];
    if t.Valid() {
      ClearReventsKeepsValid(r, i);
    }
    PassDeliversAfterDrain(t, c, controlFd, pending, grow, k, i);
    return Cleared(r, i), Some(Delivery(w.handle, UnixEventsToDbusFlags(c, w.revents))), Drained;
  }

  /**
   An EXIT waiting when the control reader is the first ready slot ends the
   pass: nothing is handed over and the table is left as it was, whatever
   bytes follow the EXIT.
   */
  lemma ExitEndsPass(t: Table, c: FlagBits, controlFd: Int32, junk: seq<byte>, grow: nat -> bool,
    k: int, r: Table, delivered: Option<Delivery>, halt: Halt)
    requires PassOutcome(t, c, controlFd, ExitBytes + junk, grow, r, delivered, halt)
    requires FirstReady(t, k) && t.entries[k].fd == controlFd
    ensures halt == Exited && delivered.None? && r == t
  {
    DecodeRecord(Exit, junk);
    assert ApplyAll(t, c, [Exit], grow) == ApplyAll(t, c, [], grow);
  }

  /** The match rules `setUpEventLoop` adds, in the order it adds them (src/bluetooth_eventloop.c:449-487). */
  const SetUpMatchRules: seq<string> := [
    "type='signal',interface='org.freedesktop.DBus'",
    "type='signal',interface='org.freedesktop.DBus.ObjectManager'",
    "type='signal',interface='org.bluez.Adapter1'",
    "type='signal',interface='org.bluez.Device1'",
    "type='signal',interface='org.bluez.MediaControl1'"
  ]

  /** The match rules `tearDownEventLoop` removes, in its order (src/bluetooth_eventloop.c:259-292). */
  const TearDownMatchRules: seq<string> := [
    "type='signal',interface='org.bluez.Device1'",
    "type='signal',interface='org.bluez.Adapter1'",
    "type='signal',interface='org.bluez.MediaControl1'",
    "type='signal',interface='org.freedesktop.DBus.ObjectManager'",
    "type='signal',interface='org.freedesktop.DBus'"
  ]

  /** What the connection is subscribed to on the loop's behalf. */
  datatype Subscriptions = Subscriptions(agent: bool, filter: bool, rules: set<string>)

  const NoSubscriptions: Subscriptions := Subscriptions(false, false, {})

  type RuleIndex = k: nat | k < 5

  /** The step of `setUpEventLoop` whose bus call fails. */
  datatype SetUpFailure = AgentRegistration | FilterInstall | AddMatch(rule: RuleIndex)

  datatype SetUpResult = SetUpResult(code: int, subscribed: Subscriptions)

  /**
   `setUpEventLoop` (src/bluetooth_eventloop.c:432-490). Without a connection it
   does nothing and reports success; otherwise it stops at the first failing
   step with -1, keeping what the earlier steps subscribed.

   `agent` tracks the loop's own agent object path. A failed agent
   registration unregisters that path again, but when bluez accepted
   RegisterAgent and only RequestDefaultAgent failed
   (src/bluetooth_eventloop.c:712-732), the registration on the bluez side may
   remain; that remote state is outside the model.
   */
  function SetUpEventLoop(connected: bool, failure: Option<SetUpFailure>): (r: SetUpResult)
    ensures r.code == 0 || r.code == -1
    ensures r.code == 0 <==> !connected || failure.None?
    ensures !connected ==> r.subscribed == NoSubscriptions
    ensures connected && failure.None? ==>
      r.subscribed == Subscriptions(true, true, set i | 0 <= i < |SetUpMatchRules| :: SetUpMatchRules[i])
    ensures connected && failure.Some? && failure.value.AddMatch? ==>
      && r.subscribed.agent && r.subscribed.filter
      && r.subscribed.rules == set i | 0 <= i < failure.value.rule :: SetUpMatchRules[i]
  {
    if !connected then SetUpResult(0, NoSubscriptions)
    else match failure
      case None => SetUpResult(0, Subscriptions(true, true, set i | 0 <= i < 5 :: SetUpMatchRules[i]))
      // a failed registration unregisters the agent's object path again
      case Some(AgentRegistration) => SetUpResult(-1, NoSubscriptions)
      case Some(FilterInstall) => SetUpResult(-1, Subscriptions(true, false, {}))
      case Some(AddMatch(k)) => SetUpResult(-1, Subscriptions(true, true, set i | 0 <= i < k :: SetUpMatchRules[i]))
  }

  /** `tearDownEventLoop`: unregister the agent, remove its five rules and the filter. */
  function TearDownEventLoop(connected: bool, s: Subscriptions): (r: Subscriptions)
    ensures !connected ==> r == s
    ensures connected ==> !r.agent && !r.filter
    ensures connected ==> forall x :: x in r.rules <==> x in s.rules && x !in TearDownMatchRules
  {
    if !connected then s
    else Subscriptions(false, false, s.rules - set x | x in TearDownMatchRules)
  }

  /** Teardown removes exactly the rules setup adds, in a different order. */
  lemma MatchRulesAgree()
    ensures forall x :: x in SetUpMatchRules <==> x in TearDownMatchRules
    ensures SetUpMatchRules != TearDownMatchRules
  {
    assert SetUpMatchRules[0] != TearDownMatchRules[0];
  }

  /**
   Whatever part of setup succeeded, teardown leaves no rule, filter or agent
   behind. The program itself tears down only after a successful setup, on the
   EXIT path (src/bluetooth_eventloop.c:212); a failed setup in
   `startEventLoop` is never followed by a teardown, so for a partial setup
   this says what a teardown would undo, not what the program does.
   */
  lemma TearDownUndoesSetUp(failure: Option<SetUpFailure>)
    ensures TearDownEventLoop(true, SetUpEventLoop(true, failure).subscribed) == NoSubscriptions
  {
    MatchRulesAgree();
    var s := SetUpEventLoop(true, failure).subscribed;
    assert forall x :: x in s.rules ==> x in SetUpMatchRules;
  }
}
