/** Processes, their states and queues, and the scheduler. A process is its number. */
module Processes {
  import opened Common
  import opened Recency
  import opened SlotLists
  import opened ProcLists
  import opened Blocking

  const LEVELS: nat := 8
  const BLOCKED: nat := 8     // after the ready lists
  const TERMINATED: nat := 9
  const TEMP: nat := 10       // for the sweep over the blocked list
  const LISTS: nat := 11
  const TIMESLICE: nat := 30  // milliseconds

  datatype State = Ready | Running | Blocked | Terminated

  /** The list a process belongs to by its state. */
  ghost predicate AtHome(st: State, priority: nat, list: nat) {
    match st
    case Ready => list == priority
    case Running => false
    case Blocked => list == BLOCKED || list == TEMP
    case Terminated => list == TERMINATED
  }

  /**
   * Every listed process is in the list of its state; the running process is in no list, unless it
   * has blocked or exited and is about to be switched out.
   */
  ghost predicate Placed(state: seq<State>, priority: seq<nat>, place: map<int, nat>, running: int) {
    && |state| == |priority| && 0 <= running < |state|
    && (forall p :: p in place ==> 0 <= p < |state| && AtHome(state[p], priority[p], place[p]))
    && (running !in place <==> state[running] == Running)
    && (running in place ==> state[running] != Ready)
    && (forall p :: 0 <= p < |state| ==> (state[p] == Blocked ==> p in place) && (state[p] == Running ==> p == running))
  }

  /** The idle process is running or ready. */
  ghost predicate IdleThere(state: seq<State>, place: map<int, nat>, running: int, idle: int) {
    0 <= idle < |state| && if idle == running then state[idle] == Running else idle in place && state[idle] == Ready
  }

  /** The first process of the first ready list, from level l on, that is not empty. */
  ghost function FirstReady(items: seq<seq<int>>, l: nat): (p: int)
    requires |items| == LISTS && l <= LEVELS
    decreases LEVELS - l
  {
    if l == LEVELS then NIL else if items[l] != [] then items[l][0] else FirstReady(items, l + 1)
  }

  /**
   * The lists after a switch: the next process leaves the front of its list, and the one that ran goes
   * to the end of its own if it stays ready.
   */
  ghost function Dispatched(items: seq<seq<int>>, priority: seq<nat>, running: int, stays: bool): (r: seq<seq<int>>)
    requires |items| == LISTS && forall p :: 0 <= p < |priority| ==> priority[p] < LEVELS
  {
    var next := FirstReady(items, 0);
    if 0 <= next < |priority| && 0 <= running < |priority| && items[priority[next]] != [] then
      var taken := items[priority[next] := items[priority[next]][1..]];
      if stays then taken[priority[running] := taken[priority[running]] + [running]] else taken
    else items
  }

  /** The states after a switch. */
  ghost function HandedTo(state: seq<State>, running: int, next: int): (r: seq<State>) {
    if 0 <= next < |state| && 0 <= running < |state| then
      (if state[running] == Running then state[running := Ready] else state)[next := Running]
    else state
  }

  /** Who runs after a switch, if one is due. */
  ghost function Successor(items: seq<seq<int>>, running: int, due: bool): (p: int)
    requires |items| == LISTS
  {
    if due && FirstReady(items, 0) != NIL then FirstReady(items, 0) else running
  }

  /** When the time slice ends after a switch, if one is due. */
  ghost function SliceEnd(items: seq<seq<int>>, end: nat, due: bool, now: nat): (t: nat)
    requires |items| == LISTS
  {
    if due && FirstReady(items, 0) != NIL then now + TIMESLICE else end
  }

  /** The lists after a blocked process goes to the front of its ready list. */
  ghost function Freed(items: seq<seq<int>>, priority: seq<nat>, p: int): (r: seq<seq<int>>)
    requires |items| == LISTS && 0 <= p < |priority| && priority[p] < LEVELS
  {
    items[BLOCKED := Without(items[BLOCKED], p)][priority[p] := [p] + items[priority[p]]]
  }

  /** The first level with a ready process comes first, and on it the process that is first in its list. */
  lemma {:induction false} FirstLevel(items: seq<seq<int>>, from: nat, l: nat)
    requires |items| == LISTS && from <= l <= LEVELS && (forall k :: from <= k < l ==> items[k] == [])
    requires l < LEVELS ==> items[l] != []
    ensures FirstReady(items, from) == if l < LEVELS then items[l][0] else NIL
    decreases l - from
  {
    if from < l {
      FirstLevel(items, from + 1, l);
    }
  }

  /** Level l is the first with a ready process. */
  ghost predicate Foremost(items: seq<seq<int>>, l: nat) {
    |items| == LISTS && l < LEVELS && items[l] != [] && forall k :: 0 <= k < l ==> items[k] == []
  }

  /**
   * A switch, when l is the first level with a ready process: the first one of that level leaves its list to run, the
   * process that ran goes to the end of its own if it stays ready, and all others keep their order.
   */
  lemma SwitchOrder(items: seq<seq<int>>, priority: seq<nat>, running: int, stays: bool, l: nat)
    requires Foremost(items, l)
    requires 0 <= items[l][0] < |priority| && priority[items[l][0]] == l && 0 <= running < |priority|
    requires forall p :: 0 <= p < |priority| ==> priority[p] < LEVELS
    ensures Successor(items, running, true) == items[l][0]
    ensures var r := Dispatched(items, priority, running, stays);
            |r| == LISTS && forall k :: 0 <= k < LISTS ==>
              r[k] == (if k == l then items[k][1..] else items[k]) +
                  if stays && k == priority[running] then [running] else []
  {
    hide FirstReady;
    FirstLevel(items, 0, l);
  }

  /** A time slice is 30 milliseconds from the switch, and goes on if there is none. */
  lemma SliceOrder(items: seq<seq<int>>, end: nat, due: bool, now: nat, l: nat)
    requires |items| == LISTS && l <= LEVELS && (forall k :: 0 <= k < l ==> items[k] == [])
    requires l < LEVELS ==> items[l] != [] && items[l][0] != NIL
    ensures SliceEnd(items, end, due, now) == if due && l < LEVELS then now + 30 else end
  {
    hide FirstReady;
    FirstLevel(items, 0, l);
  }

  /**
   * A process that is at place k of the blocked list is freed: it is the first of its ready list, and all others
   * keep their order.
   */
  lemma FreedOrder(items: seq<seq<int>>, priority: seq<nat>, k: nat)
    requires |items| == LISTS && k < |items[BLOCKED]| && Distinct(items[BLOCKED])
    requires 0 <= items[BLOCKED][k] < |priority| && priority[items[BLOCKED][k]] < LEVELS
    ensures var p, r := items[BLOCKED][k], Freed(items, priority, items[BLOCKED][k]);
            && |r| == LISTS && r[BLOCKED] == items[BLOCKED][..k] + items[BLOCKED][k + 1..]
            && forall l :: 0 <= l < LISTS && l != BLOCKED ==>
                 r[l] == (if l == priority[p] then [p] else []) + items[l]
  {
    WithoutAt(items[BLOCKED], k);
    assert forall l :: 0 <= l < LISTS ==> [] + items[l] == items[l];
  }

  /** The first process blocked for a reason on a channel, which is at place k if there is one, has left. */
  ghost predicate Picked(tags: seq<Tag>, tags': seq<Tag>, why: Reason, on: int, k: nat) {
    && k <= |tags| && (forall i :: 0 <= i < k ==> !(tags[i].reason == why && tags[i].channel == on))
    && (k == |tags| ==> tags' == tags)
    && (k < |tags| ==> tags[k].reason == why && tags[k].channel == on && tags' == Keep(tags, {tags[k].process}))
  }

  lemma NonePicked(why: Reason, on: int)
    ensures Picked([], [], why, on, 0)
  {
  }

  /** A ready process means there is one to run next. */
  lemma {:induction false} SomeReady(items: seq<seq<int>>, n: nat, l: nat, k: nat)
    requires |items| == LISTS && l <= k < LEVELS && items[k] != [] && forall j :: 0 <= j < LISTS ==> Slots(items[j], n)
    ensures FirstReady(items, l) != NIL
    decreases k - l
  {
    if items[l] == [] {
      SomeReady(items, n, l + 1, k);
    } else {
      assert Slots(items[l], n);
    }
  }

  /** A switch keeps every process in its place. */
  lemma Switched(state: seq<State>, priority: seq<nat>, place: map<int, nat>, running: int, idle: int, next: int)
    requires Placed(state, priority, place, running) && IdleThere(state, place, running, idle)
    requires next in place && 0 <= next < |state| && state[next] == Ready
    ensures state[running] == Running ==>
              && Placed(state[running := Ready][next := Running], priority,
                        (place - {next})[running := priority[running]], next)
              && IdleThere(state[running := Ready][next := Running], (place - {next})[running := priority[running]],
                           next, idle)
    ensures state[running] != Running ==>
              && Placed(state[next := Running], priority, place - {next}, next)
              && IdleThere(state[next := Running], place - {next}, next, idle)
  {
  }

  /** The running process, which is not the idle one, blocks or exits. */
  lemma Stopped(state: seq<State>, priority: seq<nat>, place: map<int, nat>, running: int, idle: int, st: State, l: nat)
    requires Placed(state, priority, place, running) && IdleThere(state, place, running, idle)
    requires running != idle && state[running] == Running && (st == Blocked || st == Terminated)
    requires AtHome(st, priority[running], l)
    ensures Placed(state[running := st], priority, place[running := l], running)
    ensures IdleThere(state[running := st], place[running := l], running, idle)
  {
  }

  /** A process that is blocked becomes ready. */
  lemma Readied(state: seq<State>, priority: seq<nat>, place: map<int, nat>, running: int, idle: int, p: int)
    requires Placed(state, priority, place, running) && IdleThere(state, place, running, idle)
    requires p in place && p != running && 0 <= p < |state| && state[p] == Blocked
    ensures Placed(state[p := Ready], priority, place[p := priority[p]], running)
    ensures IdleThere(state[p := Ready], place[p := priority[p]], running, idle)
  {
  }

  /** Moving between the blocked and the temporary list keeps processes in place. */
  lemma Swept(state: seq<State>, priority: seq<nat>, place: map<int, nat>, place': map<int, nat>, running: int,
              idle: int)
    requires Placed(state, priority, place, running) && IdleThere(state, place, running, idle)
    requires place'.Keys == place.Keys
    requires forall p :: p in place ==>
               place'[p] == place[p] || ((place[p] == BLOCKED || place[p] == TEMP)
                                         && (place'[p] == BLOCKED || place'[p] == TEMP))
    requires forall p :: 0 <= p < |priority| ==> priority[p] < LEVELS
    ensures Placed(state, priority, place', running) && IdleThere(state, place', running, idle)
  {
  }

  /** A terminated process is cleaned up. */
  lemma Removed(state: seq<State>, priority: seq<nat>, place: map<int, nat>, running: int, idle: int, p: int)
    requires Placed(state, priority, place, running) && IdleThere(state, place, running, idle)
    requires p in place && p != running && state[p] == Terminated
    ensures Placed(state, priority, place - {p}, running) && IdleThere(state, place - {p}, running, idle)
  {
  }

  /** A new process becomes ready. */
  lemma Joined(state: seq<State>, priority: seq<nat>, place: map<int, nat>, running: int, idle: int, p: int)
    requires Placed(state, priority, place, running) && IdleThere(state, place, running, idle)
    requires p !in place && p != running && 0 <= p < |state| && state[p] == Ready
    ensures Placed(state, priority, place[p := priority[p]], running)
    ensures IdleThere(state, place[p := priority[p]], running, idle)
  {
  }

  /** The processes of level l among those woken, the last one first. */
  ghost function Woken(orig: seq<int>, due: set<int>, priority: seq<nat>, l: nat): (r: seq<int>) {
    if orig == [] then []
    else
      var p := orig[|orig| - 1];
      (if p in due && 0 <= p < |priority| && priority[p] == l then [p] else []) +
          Woken(orig[..|orig| - 1], due, priority, l)
  }

  /** The processes that stay, in order. */
  ghost function Rest(orig: seq<int>, gone: set<int>): (r: seq<int>) {
    if orig == [] then []
    else Rest(orig[..|orig| - 1], gone) + if orig[|orig| - 1] in gone then [] else [orig[|orig| - 1]]
  }

  /** The lists after processes woke: they are at the front of the ready lists, the last one first. */
  ghost function Awake(items: seq<seq<int>>, priority: seq<nat>, due: set<int>): (r: seq<seq<int>>)
    requires |items| == LISTS
    ensures |r| == LISTS && r[BLOCKED] == Rest(items[BLOCKED], due)
    ensures forall l :: BLOCKED < l < LISTS ==> r[l] == items[l]
  {
    seq(LISTS, l requires 0 <= l < LISTS =>
      if l < LEVELS then Woken(items[BLOCKED], due, priority, l) + items[l]
      else if l == BLOCKED then Rest(items[l], due) else items[l])
  }

  lemma WokenLast(a: seq<int>, p: int, due: set<int>, priority: seq<nat>, l: nat)
    ensures Woken(a + [p], due, priority, l) ==
              (if p in due && 0 <= p < |priority| && priority[p] == l then [p] else []) + Woken(a, due, priority, l)
    ensures Rest(a + [p], due) == Rest(a, due) + if p in due then [] else [p]
  {
    assert (a + [p])[..|a + [p]| - 1] == a;
  }

  lemma {:induction false} WokenConcat(a: seq<int>, b: seq<int>, due: set<int>, priority: seq<nat>, l: nat)
    ensures Woken(a + b, due, priority, l) == Woken(b, due, priority, l) + Woken(a, due, priority, l)
  {
    if b == [] {
      assert a + b == a;
    } else {
      var p, c := b[|b| - 1], b[..|b| - 1];
      assert b == c + [p] && a + b == (a + c) + [p];
      WokenLast(a + c, p, due, priority, l);
      WokenLast(c, p, due, priority, l);
      WokenConcat(a, c, due, priority, l);
      hide Woken;
    }
  }

  lemma {:induction false} RestConcat(a: seq<int>, b: seq<int>, due: set<int>)
    ensures Rest(a + b, due) == Rest(a, due) + Rest(b, due)
  {
    if b == [] {
      assert a + b == a;
    } else {
      var p, c := b[|b| - 1], b[..|b| - 1];
      assert b == c + [p] && a + b == (a + c) + [p];
      WokenLast(a + c, p, due, [], 0);
      WokenLast(c, p, due, [], 0);
      RestConcat(a, c, due);
      hide Rest;
    }
  }

  lemma WokenOne(p: int, due: set<int>, priority: seq<nat>, l: nat)
    ensures Woken([p], due, priority, l) == if p in due && 0 <= p < |priority| && priority[p] == l then [p] else []
    ensures Rest([p], due) == if p in due then [] else [p]
  {
    assert [p][..0] == [];
  }

  /** Of the processes that wake up at once those that blocked later come first, before all that were ready. */
  lemma AwakeOrder(items: seq<seq<int>>, priority: seq<nat>, due: set<int>, a: seq<int>, b: seq<int>, l: nat)
    requires |items| == LISTS && items[BLOCKED] == a + b && l < LEVELS
    ensures Awake(items, priority, due)[l] == Woken(b, due, priority, l) + Woken(a, due, priority, l) + items[l]
    ensures Awake(items, priority, due)[BLOCKED] == Rest(a, due) + Rest(b, due)
  {
    hide Woken, Rest;
    WokenConcat(a, b, due, priority, l);
    RestConcat(a, b, due);
  }

  lemma NoneAwake(items: seq<seq<int>>, priority: seq<nat>, due: set<int>)
    requires |items| == LISTS && items[BLOCKED] == []
    ensures Awake(items, priority, due) == items
  {
    var r := Awake(items, priority, due);
    forall l | 0 <= l < LISTS
      ensures r[l] == items[l]
    {
      assert l < LEVELS ==> Woken(items[BLOCKED], due, priority, l) == [] && [] + items[l] == items[l];
    }
  }

  ghost predicate IsDue(p: int, now: nat, reason: seq<Reason>, wakeUp: seq<nat>) {
    0 <= p < |reason| && 0 <= p < |wakeUp| && reason[p] == Sleeping && wakeUp[p] > 0 && now >= wakeUp[p]
  }

  /** From the k-th on, the processes that were blocked have the tags they had; due has those whose time is up. */
  ghost predicate StillBlocked(orig: seq<int>, tags: seq<Tag>, due: set<int>, k: nat, now: nat,
                               reason: seq<Reason>, channel: seq<int>, wakeUp: seq<nat>) {
    && |orig| == |tags| && |reason| == |channel|
    && forall i :: k <= i < |orig| ==>
         && 0 <= orig[i] < |reason|
         && tags[i] == Tag(orig[i], reason[orig[i]], channel[orig[i]])
         && (orig[i] in due <==> IsDue(orig[i], now, reason, wakeUp))
  }

  lemma NextBlocked(orig: seq<int>, tags: seq<Tag>, due: set<int>, k: nat, now: nat,
                    reason: seq<Reason>, channel: seq<int>, wakeUp: seq<nat>)
    requires StillBlocked(orig, tags, due, k, now, reason, channel, wakeUp) && k < |orig|
    ensures |tags| == |orig| && 0 <= orig[k] < |reason| == |channel|
    ensures tags[k] == Tag(orig[k], reason[orig[k]], channel[orig[k]])
    ensures orig[k] in due <==> IsDue(orig[k], now, reason, wakeUp)
  {
  }

  lemma StaysBlocked(orig: seq<int>, tags: seq<Tag>, due: set<int>, k: nat, now: nat,
                     reason: seq<Reason>, channel: seq<int>, reason': seq<Reason>, channel': seq<int>, wakeUp: seq<nat>)
    requires StillBlocked(orig, tags, due, k, now, reason, channel, wakeUp) && k < |orig| && Distinct(orig)
    requires |reason'| == |reason| && |channel'| == |channel|
    requires forall q :: 0 <= q < |reason| && q != orig[k] ==> reason'[q] == reason[q] && channel'[q] == channel[q]
    ensures StillBlocked(orig, tags, due, k + 1, now, reason', channel', wakeUp)
  {
  }

  lemma RestStep(orig: seq<int>, k: nat, gone: set<int>)
    requires k < |orig|
    ensures Rest(orig[..k + 1], gone) == Rest(orig[..k], gone) + if orig[k] in gone then [] else [orig[k]]
  {
    assert orig[..k + 1][..k] == orig[..k];
  }

  lemma WokenStep(orig: seq<int>, k: nat, due: set<int>, priority: seq<nat>)
    requires k < |orig| && 0 <= orig[k] < |priority|
    ensures forall l: nat :: Woken(orig[..k + 1], due, priority, l) ==
                             (if orig[k] in due && priority[orig[k]] == l then [orig[k]] else []) +
                                 Woken(orig[..k], due, priority, l)
  {
    assert orig[..k + 1][..k] == orig[..k];
  }

  /** The next time to wake a process up, so far next, when one more stays blocked. */
  function Sooner(next: nat, wakeUp: nat): (r: nat) {
    if next == 0 || wakeUp < next then wakeUp else next
  }

  /** The next time to wake a process up, as the sweep computes it over the processes that stay blocked. */
  ghost function Earliest(items: seq<int>, wakeUp: seq<nat>): (t: nat) {
    if items == [] then 0
    else
      var p := items[|items| - 1];
      if 0 <= p < |wakeUp| then Sooner(Earliest(items[..|items| - 1], wakeUp), wakeUp[p]) else 0
  }

  lemma EarliestStep(items: seq<int>, p: int, wakeUp: seq<nat>)
    requires 0 <= p < |wakeUp|
    ensures Earliest(items + [p], wakeUp) == Sooner(Earliest(items, wakeUp), wakeUp[p])
  {
    assert (items + [p])[..|items|] == items;
  }

  /** The process at place j is due at time t or before, and no process behind it lacks a time to wake up. */
  ghost predicate Reminds(items: seq<int>, wakeUp: seq<nat>, j: nat, t: nat)
    requires Slots(items, |wakeUp|)
  {
    j < |items| && 0 < wakeUp[items[j]] <= t && forall k :: j < k < |items| ==> 0 < wakeUp[items[k]]
  }

  /**
   * The sweep will come back for a process that is due at time t exactly when some process due by then has
   * only processes with a time to wake up behind it: one that never slept wipes out those before it.
   */
  lemma {:induction false} SweepComesBack(items: seq<int>, wakeUp: seq<nat>, t: nat)
    requires Slots(items, |wakeUp|)
    ensures 0 < Earliest(items, wakeUp) <= t <==> exists j: nat :: Reminds(items, wakeUp, j, t)
  {
    if items != [] {
      var n, front := |items| - 1, items[..|items| - 1];
      SweepComesBack(front, wakeUp, t);
      assert Slots(front, |wakeUp|);
      if 0 < Earliest(items, wakeUp) <= t {
        if wakeUp[items[n]] <= t {
          assert Reminds(items, wakeUp, n, t);
        } else {
          var j: nat :| Reminds(front, wakeUp, j, t);
          assert Reminds(items, wakeUp, j, t);
        }
      }
      if j: nat :| Reminds(items, wakeUp, j, t) && j < n {
        assert Reminds(front, wakeUp, j, t);
      }
    }
  }

  /**
   * Process 0 sleeps until time t and process 1, which never slept, waits for something else. In this order
   * the sweep forgets the sleeper, and in the other it does not.
   */
  lemma SleeperForgotten(t: nat)
    requires 0 < t
    ensures Earliest([0, 1], [t, 0]) == 0 && Earliest([1, 0], [t, 0]) == t
  {
    assert [0, 1][..1] == [0] && [0][..0] == [] && [1, 0][..1] == [1] && [1][..0] == [];
  }

  lemma NothingToKeep(gone: set<int>)
    ensures Keep([], gone) == []
  {
  }

  lemma KeepStep(tags: seq<Tag>, k: nat, gone: set<int>)
    requires k < |tags|
    ensures Keep(tags[..k + 1], gone) == Keep(tags[..k], gone) + if tags[k].process in gone then [] else [tags[k]]
  {
    KeepConcat(tags[..k], [tags[k]], gone);
    assert tags[..k + 1] == tags[..k] + [tags[k]];
  }

  class Multitasking {
    const count: nat
    const priority: seq<nat>
    const parent: seq<int>
    const idle: int
    const lists: Lists
    var state: seq<State>
    var reason: seq<Reason>
    var channel: seq<int>
    var wakeUp: seq<nat>
    var running: int
    var depth: nat         // how often the scheduler is locked
    var pending: bool      // a switch was asked for while it was
    var nextWakeUp: nat
    var nextSwitch: nat

    ghost predicate Sizes()
      reads `state, `reason, `channel, `wakeUp, lists
    {
      && |state| == |reason| == |channel| == |wakeUp| == |priority| == |parent| == |lists.next| == count
      && |lists.items| == LISTS
      && forall p :: 0 <= p < count ==> priority[p] < LEVELS
    }

    ghost predicate Valid()
      reads `state, `reason, `channel, `wakeUp, `running, lists
    {
      && Sizes() && lists.Valid()
      && Placed(state, priority, lists.place, running)
      && IdleThere(state, lists.place, running, idle)
    }

    /** Between two steps: nothing locked, nothing pending, a process running. */
    ghost predicate AtRest()
      reads this, lists
    {
      Valid() && depth == 0 && !pending && state[running] == Running && lists.items[TEMP] == []
    }

    ghost predicate Runs()
      reads `state, `reason, `channel, `wakeUp, `running, lists
    {
      Valid() && state[running] == Running
    }

    /** The processes that have been started and not cleaned up. */
    ghost function Live(): (ps: set<int>)
      reads `running, lists
    {
      lists.place.Keys + {running}
    }

    /** The processes that have exited and been cleaned up. */
    ghost function Ended(): (ps: set<int>)
      reads `state, `running, lists
    {
      set p | 0 <= p < |state| && p !in Live() && state[p] != Ready
    }

    /** The blocked processes in order, with their reasons. */
    ghost function Blockers(): (tags: seq<Tag>)
      reads `state, `reason, `channel, `wakeUp, lists
    {
      if Sizes() && Slots(lists.items[BLOCKED], count) then Tagged(lists.items[BLOCKED], reason, channel) else []
    }

    constructor (processes: nat, priority: seq<nat>, parent: seq<int>, idle: int)
      requires |priority| == |parent| == processes && 0 <= idle < processes
      requires forall p :: 0 <= p < processes ==> priority[p] < LEVELS
      ensures AtRest() && Live() == {idle} && running == idle && Blockers() == []
      ensures wakeUp == seq(processes, _ => 0) && nextWakeUp == nextSwitch == 0 && Ended() == {}
      ensures fresh(lists) && lists.items == seq(LISTS, _ => [])
      ensures count == processes && this.priority == priority && this.parent == parent && this.idle == idle
    {
      count, this.priority, this.parent, this.idle := processes, priority, parent, idle;
      lists := new Lists(processes, LISTS);
      state := seq(processes, p => if p == idle then Running else Ready);
      reason, channel, wakeUp := seq(processes, _ => NoReason), seq(processes, _ => NIL), seq(processes, _ => 0);
      running, depth, pending, nextWakeUp, nextSwitch := idle, 0, false, 0, 0;
    }

    /** The blocked, terminated and temporary lists are as before. */
    twostate predicate OthersKept()
      requires |lists.items| == LISTS && |old(lists.items)| == LISTS
      reads lists
    {
      forall l :: LEVELS <= l < LISTS ==> lists.items[l] == old(lists.items)[l]
    }

    /** The processes that are not live keep their states. */
    twostate predicate Strangers()
      reads `state, `running, lists
    {
      |state| == |old(state)| && forall p :: 0 <= p < |state| && p !in Live() ==> state[p] == old(state)[p]
    }

    /** The process that is to run next. */
    ghost function NextReady(): (p: int)
      requires |lists.items| == LISTS
      reads lists
    {
      FirstReady(lists.items, 0)
    }

    /** Because of the idle process, a process that blocked or exited has a successor. */
    lemma IdleSucceeds()
      requires Valid() && state[running] != Running
      ensures NextReady() != NIL
    {
      hide Listed;
      var l := priority[idle];
      assert lists.place[idle] == l && idle in lists.items[l];
      forall k | 0 <= k < LISTS
        ensures Slots(lists.items[k], count)
      {
        lists.ListFacts(k);
      }
      SomeReady(lists.items, count, 0, l);
    }

    /** Takes the next process to run out of its list. */
    method TakeNext() returns (next: int)
      requires Valid()
      modifies lists
      ensures lists.Valid() && |lists.next| == |old(lists.next)| && next == old(NextReady())
      ensures next == NIL ==> lists.items == old(lists.items) && lists.place == old(lists.place)
      ensures next != NIL ==>
                && next in old(lists.place) && state[next] == Ready && lists.place == old(lists.place) - {next}
                && 0 <= next < count && old(lists.items)[priority[next]] != []
                && lists.items == old(lists.items)[priority[next] := old(lists.items)[priority[next]][1..]]
    {
      hide AllListed;
      for l := 0 to LEVELS
        invariant Valid() && lists.items == old(lists.items) && lists.place == old(lists.place)
        invariant |lists.next| == |old(lists.next)| && old(NextReady()) == FirstReady(lists.items, l)
      {
        next := lists.Dequeue(l);
        if next != NIL {
          return;
        }
      }
      next := NIL;
    }

    lemma RunningIs()
      requires Valid()
      ensures |state| == |reason| == |priority| == count && 0 <= running < count
      ensures running !in lists.place <==> state[running] == Running
      ensures forall p :: p in lists.place ==> 0 <= p < count
    {
    }

    /** A ready process is one of the system, of the priority of its list. */
    lemma FirstOfLevel(l: nat)
      requires Valid() && l < LEVELS && lists.items[l] != []
      ensures 0 <= lists.items[l][0] < count && priority[lists.items[l][0]] == l
    {
      assert lists.items[l][0] in lists.items[l];
    }

    lemma SwitchOrders()
      requires Valid()
      ensures var items, stays := lists.items, state[running] == Running;
              var r := Dispatched(items, priority, running, stays);
              |r| == LISTS && forall l: nat :: Foremost(items, l) ==>
                && Successor(items, running, true) == items[l][0]
                && forall k :: 0 <= k < LISTS ==>
                     r[k] == (if k == l then items[k][1..] else items[k]) +
                         if stays && k == priority[running] then [running] else []
    {
      hide FirstReady, Successor;
      RunningIs();
      forall l: nat | Foremost(lists.items, l)
        ensures var items, stays := lists.items, state[running] == Running;
                var r := Dispatched(items, priority, running, stays);
                && Successor(items, running, true) == items[l][0] && |r| == LISTS
                && forall k :: 0 <= k < LISTS ==>
                     r[k] == (if k == l then items[k][1..] else items[k]) +
                         if stays && k == priority[running] then [running] else []
      {
        FirstOfLevel(l);
        SwitchOrder(lists.items, priority, running, state[running] == Running, l);
      }
    }

    /** Takes the next process to run out of its list and runs it, if there is one. */
    method Switch(now: nat)
      requires Valid() && (state[running] != Running ==> NextReady() != NIL)
      modifies `state, `running, `nextSwitch, lists
      ensures Valid() && Live() == old(Live()) && OthersKept()
      ensures state == HandedTo(old(state), old(running), old(NextReady())) && state[running] == Running
      ensures running == Successor(old(lists.items), old(running), true)
      ensures nextSwitch == SliceEnd(old(lists.items), old(nextSwitch), true, now)
      ensures lists.items == Dispatched(old(lists.items), priority, old(running), old(state[running]) == Running)
    {
      hide AllListed, Placed, IdleThere;
      RunningIs();
      var next := TakeNext();
      if next == NIL {
        return;
      }
      Switched(state, priority, old(lists.place), running, idle, next);
      var previous := running;
      if state[previous] == Running {
        state := state[previous := Ready];
        lists.Append(priority[previous], previous);
      }
      running := next;
      state := state[next := Running];
      nextSwitch := now + TIMESLICE;
    }

    /**
     * Switches to the next process, or notes that a switch is wanted while the scheduler is locked.
     * As the idle process never blocks, one that blocked or exited always finds a successor.
     */
    method Schedule(now: nat)
      requires Valid()
      modifies `state, `running, `pending, `nextSwitch, lists
      ensures Valid() && Live() == old(Live()) && OthersKept() && Blockers() == old(Blockers())
      ensures depth > 0 ==> pending && running == old(running) && state == old(state) && lists.items == old(lists.items)
      ensures depth > 0 ==> lists.place == old(lists.place)
      ensures depth == 0 ==> state[running] == Running && pending == old(pending)
      ensures depth == 0 ==> running == Successor(old(lists.items), old(running), true)
      ensures nextSwitch == SliceEnd(old(lists.items), old(nextSwitch), depth == 0, now)
      ensures depth == 0 ==>
                lists.items == Dispatched(old(lists.items), priority, old(running), old(state[running]) == Running)
      ensures Strangers()
      ensures forall p :: 0 <= p < count && old(state[p]) != Running && p != running ==> state[p] == old(state[p])
      ensures depth == 0 ==> forall l: nat :: Foremost(old(lists.items), l) ==>
                && running == old(lists.items)[l][0]
                && forall k :: 0 <= k < LISTS ==>
                     lists.items[k] == (if k == l then old(lists.items)[k][1..] else old(lists.items)[k]) +
                         if old(state[running]) == Running && k == priority[old(running)] then [old(running)] else []
    {
      hide AllListed, Tagged, Placed, IdleThere, Dispatched, FirstReady;
      RunningIs();
      if depth > 0 {
        pending := true;
        return;
      }
      if state[running] != Running {
        IdleSucceeds();
      }
      SwitchOrders();
      Switch(now);
      RunningIs();
    }

    method LockScheduler()
      modifies `depth
      ensures depth == old(depth) + 1
    {
      depth := depth + 1;
    }

    /** Unlocking for the last time makes the switch that is pending. */
    method UnlockScheduler(now: nat)
      requires Valid() && 0 < depth && (depth == 1 && state[running] != Running ==> pending)
      modifies `state, `running, `depth, `pending, `nextSwitch, lists
      ensures Valid() && depth == old(depth) - 1 && Live() == old(Live()) && OthersKept()
      ensures Blockers() == old(Blockers())
      ensures depth > 0 || !old(pending) ==>
                && running == old(running) && state == old(state) && pending == old(pending)
                && lists.items == old(lists.items)
      ensures depth > 0 || !old(pending) ==> lists.place == old(lists.place)
      ensures depth == 0 ==> !pending && state[running] == Running
      ensures depth == 0 && old(pending) ==> running == Successor(old(lists.items), old(running), true)
      ensures nextSwitch == SliceEnd(old(lists.items), old(nextSwitch), depth == 0 && old(pending), now)
      ensures depth == 0 && old(pending) ==>
                lists.items == Dispatched(old(lists.items), priority, old(running), old(state[running]) == Running)
      ensures Strangers() && Ended() == old(Ended())
      ensures forall p :: 0 <= p < count && old(state[p]) != Running && p != running ==> state[p] == old(state[p])
    {
      hide AllListed, Tagged, Foremost;
      depth := depth - 1;
      if depth == 0 {
        if pending {
          pending := false;
          Schedule(now);
        }
      }
    }

    /** A step may begin: the running process runs, and nothing is left over when the scheduler is not locked. */
    ghost predicate Steady()
      reads this, lists
    {
      Valid() && lists.items[TEMP] == [] && (depth == 0 ==> state[running] == Running && !pending)
    }

    /** What every step keeps: depth, temporary list, rest, and the processes that are not live. */
    twostate predicate Stepped()
      reads this, lists
    {
      && Steady() && depth == old(depth) && Strangers()
      && (old(pending) && depth > 0 ==> pending)
    }

    /** The running process moves to a list, and a switch is asked for. */
    method Leave(st: State, l: nat, now: nat)
      requires Valid() && depth > 0 && state[running] == Running && running != idle
      requires (st == Blocked && l == BLOCKED) || (st == Terminated && l == TERMINATED)
      modifies `state, `running, `pending, `nextSwitch, lists
      ensures Valid() && Live() == old(Live()) && pending && running == old(running) && nextSwitch == old(nextSwitch)
      ensures Strangers()
      ensures state == old(state)[running := st]
      ensures lists.items == old(lists.items)[l := old(lists.items)[l] + [running]]
    {
      hide AllListed, Placed, IdleThere, Tagged, Foremost;
      RunningIs();
      Stopped(state, priority, lists.place, running, idle, st, l);
      state := state[running := st];
      lists.Append(l, running);
      Schedule(now);
    }

    /** The lists are those given, after a switch if one was due and the scheduler is not locked. */
    twostate predicate Settled(items: seq<seq<int>>, due: bool, stays: bool, now: nat)
      requires |items| == LISTS && Sizes()
      reads this, lists
    {
      && lists.items == (if depth == 0 && due then Dispatched(items, priority, old(running), stays) else items)
      && running == Successor(items, old(running), depth == 0 && due)
      && nextSwitch == SliceEnd(items, old(nextSwitch), depth == 0 && due, now)
      && (depth > 0 ==> pending == (old(pending) || due))
    }

    /** The end of a step: a switch that is due comes once the scheduler is unlocked. */
    method EndStep(due: bool, now: nat)
      requires Valid() && 0 < depth && lists.items[TEMP] == []
      requires depth == 1 ==> state[running] == Running && !pending
      modifies `state, `running, `depth, `pending, `nextSwitch, lists
      ensures Steady() && depth == old(depth) - 1 && Live() == old(Live()) && OthersKept()
      ensures Blockers() == old(Blockers())
      ensures Settled(old(lists.items), due, old(state[running]) == Running, now)
      ensures depth > 0 ==> state == old(state)
      ensures Strangers()
      ensures forall q :: 0 <= q < count && old(state[q]) != Running && q != running ==> state[q] == old(state[q])
    {
      hide AllListed, Placed, IdleThere, Tagged, Dispatched, FirstReady, Foremost;
      RunningIs();
      if due {
        Schedule(now);
      }
      UnlockScheduler(now);
    }

    /** A process of lower priority than p is preempted once the scheduler is unlocked. */
    method PreemptFor(p: int, now: nat)
      requires Valid() && 0 <= p < count && 0 < depth && lists.items[TEMP] == []
      requires depth == 1 ==> state[running] == Running && !pending
      modifies `state, `running, `depth, `pending, `nextSwitch, lists
      ensures Steady() && depth == old(depth) - 1 && Live() == old(Live()) && OthersKept()
      ensures Blockers() == old(Blockers())
      ensures Settled(old(lists.items), priority[old(running)] > priority[p], old(state[running]) == Running, now)
      ensures depth > 0 ==> state == old(state)
      ensures Strangers()
      ensures forall q :: 0 <= q < count && old(state[q]) != Running && q != running ==> state[q] == old(state[q])
    {
      hide AllListed, Placed, IdleThere, Tagged, Dispatched, FirstReady;
      RunningIs();
      EndStep(priority[running] > priority[p], now);
    }

    /** What is known of a list. */
    lemma ListIs(l: nat)
      requires Valid() && l < LISTS
      ensures Slots(lists.items[l], count) && Distinct(lists.items[l])
      ensures forall p :: p in lists.items[l] <==> p in lists.place && lists.place[p] == l
    {
      hide Placed, IdleThere, AllListed;
      lists.ListFacts(l);
      lists.PlacesOf(l);
    }

    /** The running process blocks. */
    method ProcBlock(why: Reason, on: int, now: nat)
      requires Steady() && state[running] == Running && running != idle
      modifies `state, `reason, `channel, `running, `depth, `pending, `nextSwitch, lists
      ensures Stepped() && Live() == old(Live()) && Blockers() == old(Blockers()) + [Tag(old(running), why, on)]
      ensures depth > 0 ==> running == old(running) && pending && state == old(state)[running := Blocked]
      ensures Settled(old(lists.items)[BLOCKED := old(lists.items)[BLOCKED] + [old(running)]], true, false, now)
    {
      hide AllListed, Placed, IdleThere, Tagged, Dispatched, FirstReady;
      RunningIs();
      var p := running;
      LockScheduler();
      ghost var items := lists.items[BLOCKED];
      ListIs(BLOCKED);
      TaggedSame(items, reason, channel, reason[p := why], channel[p := on]);
      TaggedAppend(items, p, reason[p := why], channel[p := on]);
      reason, channel := reason[p := why], channel[p := on];
      Leave(Blocked, BLOCKED, now);
      UnlockScheduler(now);
    }

    /** A blocked process that was taken out of list l goes to the front of its ready list. */
    method PutReady(p: int, ghost l: nat)
      requires Sizes() && lists.Valid() && 0 <= p < count && state[p] == Blocked && p != running && p !in lists.place
      requires Placed(state, priority, lists.place[p := l], running)
      requires IdleThere(state, lists.place[p := l], running, idle)
      modifies `state, `reason, `channel, lists
      ensures Valid() && Live() == old(Live()) + {p} && state == old(state)[p := Ready]
      ensures reason == old(reason)[p := NoReason] && channel == old(channel)[p := NIL]
      ensures lists.items == old(lists.items)[priority[p] := [p] + old(lists.items)[priority[p]]]
    {
      hide AllListed, Placed, IdleThere;
      ghost var place: map<int, nat> := lists.place[p := l];
      Readied(state, priority, place, running, idle, p);
      state := state[p := Ready];
      reason, channel := reason[p := NoReason], channel[p := NIL];
      lists.Prepend(priority[p], p);
      assert lists.place == place[p := priority[p]];
    }

    /** A blocked process goes to the front of its ready list. */
    method MakeReady(p: int)
      requires Valid() && 0 <= p < count && state[p] == Blocked && p != running && p in lists.items[BLOCKED]
      modifies `state, `reason, `channel, lists
      ensures Valid() && Live() == old(Live()) && state == old(state)[p := Ready] && Strangers()
      ensures Blockers() == Keep(old(Blockers()), {p})
      ensures lists.items == Freed(old(lists.items), priority, p)
      ensures forall l :: BLOCKED < l < LISTS ==> lists.items[l] == old(lists.items)[l]
    {
      hide AllListed, Placed, IdleThere, Tagged, Keep;
      RunningIs();
      ListIs(BLOCKED);
      ghost var items, place := lists.items[BLOCKED], lists.place;
      TaggedWithout(items, p, reason, channel);
      TaggedSame(Without(items, p), reason, channel, reason[p := NoReason], channel[p := NIL]);
      lists.Unlist(BLOCKED, p);
      assert lists.place[p := BLOCKED] == place;
      PutReady(p, BLOCKED);
    }

    lemma BlockedIs(p: int)
      requires Valid() && 0 <= p < count && state[p] == Blocked && lists.items[TEMP] == []
      ensures p in lists.items[BLOCKED]
    {
      hide IdleThere, AllListed;
      ListIs(BLOCKED);
      ListIs(TEMP);
    }

    /** A blocked process becomes ready, and the scheduler is unlocked. */
    method FreeAndUnlock(p: int, now: nat)
      requires Valid() && 0 < depth && lists.items[TEMP] == [] && (depth == 1 ==> state[running] == Running && !pending)
      requires 0 <= p < count && p != running && state[p] == Blocked && p in lists.items[BLOCKED]
      modifies `state, `reason, `channel, `running, `depth, `pending, `nextSwitch, lists
      ensures Steady() && depth == old(depth) - 1 && Live() == old(Live()) && Strangers()
      ensures Blockers() == Keep(old(Blockers()), {p}) && lists.items[TERMINATED] == old(lists.items)[TERMINATED]
      ensures depth > 0 ==> state == old(state)[p := Ready]
      ensures state[p] == Ready || (state[p] == Running && p == running)
      ensures Settled(Freed(old(lists.items), priority, p), priority[old(running)] > priority[p],
                      old(state[running]) == Running, now)
    {
      hide AllListed, Placed, IdleThere, Tagged, Keep, Freed, Dispatched, FirstReady, Multitasking.Live;
      RunningIs();
      MakeReady(p);
      PreemptFor(p, now);
      RunningIs();
    }

    /** Unblocks a process, if it is blocked; a process of lower priority is preempted. */
    method UnblockProcess(p: int, now: nat)
      requires Steady() && 0 <= p < count && p != running
      modifies `state, `reason, `channel, `running, `depth, `pending, `nextSwitch, lists
      ensures Stepped() && Live() == old(Live()) && lists.items[TERMINATED] == old(lists.items)[TERMINATED]
      ensures Blockers() == if old(state[p]) == Blocked then Keep(old(Blockers()), {p}) else old(Blockers())
      ensures old(state[p]) != Blocked ==>
                && state == old(state) && running == old(running) && lists.items == old(lists.items)
                && nextSwitch == old(nextSwitch)
      ensures depth > 0 ==> running == old(running)
      ensures depth > 0 ==> state == if old(state[p]) == Blocked then old(state)[p := Ready] else old(state)
      ensures old(state[p]) == Blocked ==> state[p] == Ready || (state[p] == Running && p == running)
      ensures old(state[p]) == Blocked ==>
                Settled(Freed(old(lists.items), priority, p), priority[old(running)] > priority[p],
                        old(state[running]) == Running, now)
    {
      hide AllListed, Placed, IdleThere, Tagged, Keep, Freed, Dispatched, FirstReady, Multitasking.Live;
      RunningIs();
      if state[p] != Blocked {
        return;
      }
      BlockedIs(p);
      LockScheduler();
      FreeAndUnlock(p, now);
    }

    /** The first process in the blocked list with a reason and a channel. */
    method FindBlocked(why: Reason, on: int) returns (p: int, ghost k: nat)
      requires Valid()
      ensures p == At(lists.items[BLOCKED], k) && k <= |Blockers()| == |lists.items[BLOCKED]|
      ensures forall i :: 0 <= i < k ==> !(Blockers()[i].reason == why && Blockers()[i].channel == on)
      ensures k < |Blockers()| ==> Blockers()[k] == Tag(p, why, on) && 0 <= p < count && p in lists.items[BLOCKED]
      ensures p == NIL <==> k == |Blockers()|
    {
      hide AllListed, Placed, IdleThere;
      ListIs(BLOCKED);
      lists.ListFacts(BLOCKED);
      ghost var items := lists.items[BLOCKED];
      p, k := lists.heads[BLOCKED], 0;
      while p != NIL
        invariant k <= |items| && p == At(items, k)
        invariant forall i :: 0 <= i < k ==> !(Blockers()[i].reason == why && Blockers()[i].channel == on)
        decreases |items| - k
      {
        if reason[p] == why && channel[p] == on {
          return;
        }
        p := lists.next[p];
        k := k + 1;
      }
    }

    lemma StateOfBlocked(p: int)
      requires Valid() && p in lists.items[BLOCKED]
      ensures 0 <= p < count && state[p] == Blocked && (state[running] == Running ==> p != running)
    {
      hide AllListed, IdleThere;
      ListIs(BLOCKED);
    }

    /** Makes the first process ready that is blocked for a reason and on a channel. */
    method MakeFirstReady(why: Reason, on: int) returns (p: int, ghost k: nat)
      requires Runs()
      modifies `state, `reason, `channel, lists
      ensures Runs() && Live() == old(Live()) && lists.items[TEMP] == old(lists.items)[TEMP] && NIL <= p < count
      ensures Strangers()
      ensures Picked(old(Blockers()), Blockers(), why, on, k) && (p == NIL <==> k == |old(Blockers())|)
      ensures p != NIL ==> p == old(Blockers())[k].process && k < |old(Blockers())|
      ensures lists.items == if p == NIL then old(lists.items) else Freed(old(lists.items), priority, p)
    {
      hide AllListed, Placed, IdleThere, Tagged, Keep;
      p, k := FindBlocked(why, on);
      if p != NIL {
        StateOfBlocked(p);
        MakeReady(p);
      }
      RunningIs();
    }

    /**
     * Unblocks the first process that is blocked for a reason and on a channel; a process of lower priority is
     * preempted.
     */
    method UnblockProcessThat(why: Reason, on: int, now: nat) returns (ghost k: nat)
      requires Steady() && state[running] == Running
      modifies `state, `reason, `channel, `running, `depth, `pending, `nextSwitch, lists
      ensures Stepped() && Live() == old(Live())
      ensures Picked(old(Blockers()), Blockers(), why, on, k)
      ensures k == |old(Blockers())| ==> lists.items == old(lists.items) && running == old(running)
      ensures k == |old(Blockers())| ==> nextSwitch == old(nextSwitch)
      ensures k < |old(Blockers())| ==> var p := old(Blockers())[k].process;
                0 <= p < count && Settled(Freed(old(lists.items), priority, p), priority[old(running)] > priority[p],
                                          true, now)
    {
      hide AllListed, Placed, IdleThere, Tagged, Keep, Dispatched, Picked, Freed, FirstReady;
      lists.HeadAt(BLOCKED);
      NonePicked(why, on);
      k := 0;
      if lists.heads[BLOCKED] == NIL {
        return;
      }
      LockScheduler();
      var p;
      p, k := MakeFirstReady(why, on);
      if p != NIL {
        PreemptFor(p, now);
      } else {
        UnlockScheduler(now);
      }
    }

    /** Starts a new process; a running process of lower priority is preempted. */
    method StartProcess(p: int, now: nat)
      requires Steady() && state[running] == Running && 0 <= p < count && p !in Live() && state[p] == Ready
      modifies `state, `running, `depth, `pending, `nextSwitch, lists
      ensures Stepped() && Live() == old(Live()) + {p} && Blockers() == old(Blockers())
      ensures Settled(old(lists.items)[priority[p] := old(lists.items)[priority[p]] + [p]],
                      priority[p] < priority[old(running)], true, now)
    {
      hide AllListed, Placed, IdleThere, Tagged;
      RunningIs();
      LockScheduler();
      Joined(state, priority, lists.place, running, idle, p);
      lists.Append(priority[p], p);
      PreemptFor(p, now);
    }

    /** Gives the processor up. */
    method ProcYield(now: nat)
      requires Steady() && state[running] == Running
      modifies `state, `running, `depth, `pending, `nextSwitch, lists
      ensures Stepped() && Live() == old(Live()) && Blockers() == old(Blockers())
      ensures Settled(old(lists.items), true, true, now)
    {
      hide AllListed, Placed, IdleThere, Tagged;
      LockScheduler();
      EndStep(true, now);
    }

    /** The running process sleeps for some time. */
    method ProcSleep(milliseconds: int, now: nat)
      requires Steady() && state[running] == Running && running != idle
      modifies `state, `reason, `channel, `wakeUp, `nextWakeUp, `running, `depth, `pending, `nextSwitch, lists
      ensures Stepped() && Live() == old(Live())
      ensures Blockers() == old(Blockers()) + if milliseconds <= 0 then [] else [Tag(old(running), Sleeping, NIL)]
      ensures milliseconds > 0 ==> wakeUp == old(wakeUp)[old(running) := now + milliseconds]
      ensures milliseconds > 0 ==> nextWakeUp == Sooner(old(nextWakeUp), now + milliseconds)
      ensures milliseconds <= 0 ==> lists.items == old(lists.items) && running == old(running)
      ensures milliseconds <= 0 ==> nextSwitch == old(nextSwitch)
      ensures milliseconds <= 0 ==> wakeUp == old(wakeUp) && nextWakeUp == old(nextWakeUp)
      ensures milliseconds > 0 ==>
                Settled(old(lists.items)[BLOCKED := old(lists.items)[BLOCKED] + [old(running)]], true, false, now)
    {
      hide AllListed, Placed, IdleThere, Tagged, Dispatched, FirstReady;
      if milliseconds <= 0 {
        return;
      }
      RunningIs();
      LockScheduler();
      var p := running;
      wakeUp := wakeUp[p := now + milliseconds];
      nextWakeUp := Sooner(nextWakeUp, wakeUp[p]);
      ProcBlock(Sleeping, NIL, now);
      UnlockScheduler(now);
    }

    /** The parent of a process is another process or none. */
    predicate ParentKnown(p: int) {
      0 <= p < |parent| && NIL <= parent[p] < count && parent[p] != p
    }

    /** The lists after a parent has been told, if it waits. */
    ghost function AfterChild(items: seq<seq<int>>, par: int, waits: bool): (r: seq<seq<int>>)
      requires |items| == LISTS && (waits ==> 0 <= par < |priority| && priority[par] < LEVELS)
    {
      if waits then Freed(items, priority, par) else items
    }

    /** Unblocks a process that waits for a child to exit. */
    method WakeParent(par: int, now: nat)
      requires Steady() && depth > 0 && pending && -1 <= par < count && par != running
      modifies `state, `reason, `channel, `running, `depth, `pending, `nextSwitch, lists
      ensures Stepped() && pending && Live() == old(Live()) && running == old(running)
      ensures state[running] == old(state)[running]
      ensures nextSwitch == old(nextSwitch)
      ensures lists.items == AfterChild(old(lists.items), par, par != NIL && old(state[par]) == Blocked
                                        && old(reason[par]) == ChildExit)
      ensures if par != NIL && old(state[par]) == Blocked && old(reason[par]) == ChildExit
              then Blockers() == Keep(old(Blockers()), {par}) else Blockers() == old(Blockers())
    {
      hide AllListed, Placed, IdleThere, Tagged, Keep;
      RunningIs();
      if par != NIL && state[par] == Blocked && reason[par] == ChildExit {
        UnblockProcess(par, now);
      }
    }

    /** The running process exits; a parent that waits for it is unblocked. */
    method ProcExit(now: nat)
      requires Steady() && state[running] == Running && running != idle && ParentKnown(running)
      modifies `state, `reason, `channel, `running, `depth, `pending, `nextSwitch, lists
      ensures Stepped() && Live() == old(Live())
      ensures var par := parent[old(running)];
              var waits := par != NIL && old(state[par]) == Blocked && old(reason[par]) == ChildExit;
              Settled(AfterChild(old(lists.items)[TERMINATED := old(lists.items)[TERMINATED] + [old(running)]], par,
                                 waits), true, false, now)
      ensures var par := parent[old(running)];
              if par != NIL && old(state[par]) == Blocked && old(reason[par]) == ChildExit
              then Blockers() == Keep(old(Blockers()), {par}) else Blockers() == old(Blockers())
    {
      hide AllListed, Placed, IdleThere, Tagged, Keep;
      RunningIs();
      var p := running;
      LockScheduler();
      Leave(Terminated, TERMINATED, now);
      WakeParent(parent[p], now);
      Schedule(now);
      UnlockScheduler(now);
    }

    /** Whether a list has a child of a process. */
    method HasChildIn(l: nat, par: int) returns (r: bool)
      requires Valid() && l < LISTS
      ensures r <==>
                exists i :: 0 <= i < |lists.items[l]| && 0 <= lists.items[l][i] < count
                    && parent[lists.items[l][i]] == par
    {
      hide AllListed, Placed, IdleThere;
      lists.ListFacts(l);
      ghost var items, k := lists.items[l], 0;
      var p := lists.heads[l];
      while p != NIL
        invariant 0 <= k <= |items| && p == At(items, k)
        invariant forall i :: 0 <= i < k ==> parent[items[i]] != par
        decreases |items| - k
      {
        if parent[p] == par {
          return true;
        }
        p := lists.next[p];
        k := k + 1;
      }
      return false;
    }

    /** Whether a running, ready or blocked process is a child. */
    ghost predicate HasChild(par: int)
      reads `running, `state, lists
    {
      exists p :: p in Live() && 0 <= p < count && |parent| == count && |state| == count && parent[p] == par
          && state[p] != Terminated
    }

    method ProcHasChildren(par: int) returns (r: bool)
      requires Valid() && lists.items[TEMP] == [] && state[running] == Running
      ensures r <==> HasChild(par)
    {
      hide AllListed, IdleThere;
      if parent[running] == par {
        return true;
      }
      for l := 0 to BLOCKED + 1
        invariant forall p :: p in lists.place && lists.place[p] < l ==> parent[p] != par
      {
        ListIs(l);
        r := HasChildIn(l, par);
        if r {
          return;
        }
        assert forall p :: p in lists.place && lists.place[p] == l ==> p in lists.items[l];
      }
      ListIs(TEMP);
      return false;
    }

    /** The running process waits until a child exits; an error if it has none. */
    method ProcWaitChild(now: nat) returns (st: Status)
      requires Steady() && state[running] == Running && running != idle
      modifies `state, `reason, `channel, `running, `depth, `pending, `nextSwitch, lists
      ensures Stepped() && Live() == old(Live())
      ensures st == if old(HasChild(running)) then Ok else ErrNotSupported
      ensures Blockers() == old(Blockers()) + if st == Ok then [Tag(old(running), ChildExit, NIL)] else []
      ensures if st == Ok then Settled(old(lists.items)[BLOCKED := old(lists.items)[BLOCKED] + [old(running)]], true,
                                       false, now)
              else lists.items == old(lists.items) && running == old(running) && nextSwitch == old(nextSwitch)
    {
      hide AllListed, Placed, IdleThere, Tagged, HasChild;
      LockScheduler();
      var has := ProcHasChildren(running);
      if !has {
        UnlockScheduler(now);
        return ErrNotSupported;
      }
      ProcBlock(ChildExit, NIL, now);
      UnlockScheduler(now);
      return Ok;
    }

    /** The time of a sleeping process is up. */
    ghost predicate Due(p: int, now: nat)
      reads `reason, `wakeUp
    {
      IsDue(p, now, reason, wakeUp)
    }

    lemma StateOfTemp(p: int)
      requires Valid() && p in lists.items[TEMP]
      ensures 0 <= p < count && state[p] == Blocked && lists.place[p] == TEMP
    {
      hide AllListed, IdleThere;
      ListIs(TEMP);
    }

    /** A blocked process that was taken out of the temporary list goes to the end of the blocked list. */
    method PutBlocked(p: int)
      requires Sizes() && lists.Valid() && 0 <= p < count && p !in lists.place
      requires Placed(state, priority, lists.place[p := TEMP], running)
      requires IdleThere(state, lists.place[p := TEMP], running, idle)
      modifies lists
      ensures Valid() && Live() == old(Live()) + {p}
      ensures lists.items == old(lists.items)[BLOCKED := old(lists.items)[BLOCKED] + [p]]
    {
      hide AllListed, Placed, IdleThere;
      ghost var place: map<int, nat> := lists.place[p := TEMP];
      Swept(state, priority, place, place[p := BLOCKED], running, idle);
      lists.Append(BLOCKED, p);
      assert lists.place == place[p := BLOCKED];
    }

    /** Takes the first process of the temporary list and makes it ready or puts it back. */
    method SweepOne(now: nat)
      requires Valid() && lists.items[TEMP] != [] && running !in lists.items[TEMP]
      modifies `state, `reason, `channel, `nextWakeUp, lists
      ensures Valid() && Live() == old(Live())
      ensures var p, items := old(lists.items)[TEMP][0], old(lists.items)[TEMP := old(lists.items)[TEMP][1..]];
              && 0 <= p < count
              && lists.items == (if old(Due(p, now)) then items[priority[p] := [p] + items[priority[p]]]
                                 else items[BLOCKED := items[BLOCKED] + [p]])
              && (forall q :: 0 <= q < count && q != p ==> reason[q] == old(reason)[q] && channel[q] == old(channel)[q])
              && state[running] == old(state)[running] && Strangers()
              && nextWakeUp == (if old(Due(p, now)) then old(nextWakeUp) else Sooner(old(nextWakeUp), wakeUp[p]))
              && Blockers() == old(Blockers()) +
                  if old(Due(p, now)) then [] else [Tag(p, old(reason)[p], old(channel)[p])]
    {
      hide AllListed, Placed, IdleThere, Tagged;
      RunningIs();
      ListIs(TEMP);
      ListIs(BLOCKED);
      ghost var items, place := lists.items[BLOCKED], lists.place;
      ghost var p := lists.items[TEMP][0];
      StateOfTemp(p);
      TaggedSame(items, reason, channel, reason[p := NoReason], channel[p := NIL]);
      TaggedAppend(items, p, reason, channel);
      var q := lists.Dequeue(TEMP);
      assert lists.place[p := TEMP] == place;
      if reason[q] == Sleeping && wakeUp[q] > 0 && now >= wakeUp[q] {
        PutReady(q, TEMP);
      } else {
        PutBlocked(q);
        nextWakeUp := Sooner(nextWakeUp, wakeUp[q]);
      }
    }

    /** The blocked processes whose sleep is over. */
    ghost function AllDue(now: nat): (ps: set<int>)
      reads `reason, `wakeUp, lists
    {
      if |lists.items| == LISTS then set p | p in lists.items[BLOCKED] && Due(p, now) else {}
    }

    /** The first k of the processes that were blocked have been dealt with. */
    ghost predicate Sweeping(orig: seq<int>, tags: seq<Tag>, due: set<int>, k: nat, now: nat, base: seq<seq<int>>)
      reads this, lists
    {
      && Sizes() && |base| == LISTS && base[BLOCKED] == orig && base[TEMP] == [] && k <= |orig| == |tags|
      && Distinct(orig)
      && (forall l :: 0 <= l < LEVELS ==> lists.items[l] == Woken(orig[..k], due, priority, l) + base[l])
      && lists.items[BLOCKED] == Rest(orig[..k], due) && lists.items[TERMINATED] == base[TERMINATED]
      && lists.items[TEMP] == orig[k..]
      && StillBlocked(orig, tags, due, k, now, reason, channel, wakeUp)
      && Blockers() == Keep(tags[..k], due) && nextWakeUp == Earliest(lists.items[BLOCKED], wakeUp)
    }

    lemma SweepStarts(orig: seq<int>, tags: seq<Tag>, due: set<int>, now: nat, base: seq<seq<int>>)
      requires Sizes() && Slots(orig, count) && Distinct(orig) && tags == Tagged(orig, reason, channel)
      requires due == set p | p in orig && Due(p, now)
      requires |base| == LISTS && base[BLOCKED] == orig && base[TEMP] == []
      requires lists.items == base[TEMP := orig][BLOCKED := []] && nextWakeUp == 0
      ensures Sweeping(orig, tags, due, 0, now, base)
    {
      hide IsDue;
      assert tags[..0] == [] && orig[0..] == orig && orig[..0] == [];
      NothingToKeep(due);
    }

    lemma SweepLeft(orig: seq<int>, tags: seq<Tag>, due: set<int>, k: nat, now: nat, base: seq<seq<int>>)
      requires Valid() && Sweeping(orig, tags, due, k, now, base)
      ensures k <= |orig| && |lists.heads| == LISTS && (lists.heads[TEMP] == NIL <==> k == |orig|)
    {
      hide AllListed, Placed, IdleThere, Due, Keep, Tagged;
      lists.ListFacts(TEMP);
    }

    lemma SweepEnds(orig: seq<int>, tags: seq<Tag>, due: set<int>, now: nat, base: seq<seq<int>>)
      requires Sweeping(orig, tags, due, |orig|, now, base)
      ensures Blockers() == Keep(tags, due) && nextWakeUp == Earliest(lists.items[BLOCKED], wakeUp)
      ensures |base| == LISTS && lists.items == Awake(base, priority, due)
    {
      hide Due, Keep, Tagged, Woken, Rest;
      assert tags[..|orig|] == tags && orig[..|orig|] == orig;
    }

    /** Moves the blocked list to the temporary one. */
    method StartSweep()
      requires Valid() && lists.items[TEMP] == []
      modifies `nextWakeUp, lists
      ensures Valid() && Live() == old(Live())
      ensures lists.items == old(lists.items)[TEMP := old(lists.items)[BLOCKED]][BLOCKED := []]
      ensures nextWakeUp == 0
    {
      hide AllListed, Placed, IdleThere;
      ghost var place := lists.place;
      lists.MoveAll(BLOCKED, TEMP);
      Swept(state, priority, place, lists.place, running, idle);
      nextWakeUp := 0;
    }

    /** One round of the sweep. */
    method SweepNext(ghost orig: seq<int>, ghost tags: seq<Tag>, ghost due: set<int>, ghost k: nat, now: nat,
                     ghost base: seq<seq<int>>)
      requires Runs() && Sweeping(orig, tags, due, k, now, base) && k < |orig|
      modifies `state, `reason, `channel, `nextWakeUp, lists
      ensures Runs() && Live() == old(Live()) && Strangers() && Sweeping(orig, tags, due, k + 1, now, base)
    {
      hide AllListed, Placed, IdleThere, Keep, Tagged, Woken, Rest, StillBlocked, IsDue, Distinct, Earliest, Sooner;
      ListIs(TEMP);
      EarliestStep(lists.items[BLOCKED], orig[k], wakeUp);
      RunningIs();
      KeepStep(tags, k, due);
      NextBlocked(orig, tags, due, k, now, reason, channel, wakeUp);
      WokenStep(orig, k, due, priority);
      RestStep(orig, k, due);
      assert orig[k] == orig[k..][0] && orig[k..][1..] == orig[k + 1..];
      ghost var reason0, channel0 := reason, channel;
      SweepOne(now);
      StaysBlocked(orig, tags, due, k, now, reason0, channel0, reason, channel, wakeUp);
    }

    /** The sweep proper, with the scheduler locked. */
    method Sweep(now: nat)
      requires Runs() && lists.items[TEMP] == []
      modifies `state, `reason, `channel, `nextWakeUp, lists
      ensures Runs() && Live() == old(Live()) && Strangers()
      ensures Blockers() == Keep(old(Blockers()), old(AllDue(now)))
      ensures lists.items == Awake(old(lists.items), priority, old(AllDue(now)))
      ensures nextWakeUp == Earliest(lists.items[BLOCKED], wakeUp)
    {
      hide AllListed, Placed, IdleThere, Keep, Due, Sweeping, Tagged, Awake;
      RunningIs();
      ListIs(BLOCKED);
      ghost var orig, due, tags, base := lists.items[BLOCKED], AllDue(now), Blockers(), lists.items;
      StartSweep();
      SweepStarts(orig, tags, due, now, base);
      ghost var k := 0;
      SweepLeft(orig, tags, due, k, now, base);
      var p := lists.heads[TEMP];
      while p != NIL
        invariant Runs() && Live() == old(Live()) && Strangers() && k <= |orig|
        invariant Sweeping(orig, tags, due, k, now, base)
        invariant p == NIL <==> k == |orig|
        decreases |orig| - k
      {
        SweepNext(orig, tags, due, k, now, base);
        k := k + 1;
        SweepLeft(orig, tags, due, k, now, base);
        p := lists.heads[TEMP];
      }
      SweepEnds(orig, tags, due, now, base);
    }

    lemma NoneAwakeIf(now: nat)
      requires |lists.items| == LISTS
      ensures lists.items[BLOCKED] == [] ==> Awake(lists.items, priority, AllDue(now)) == lists.items
    {
      if lists.items[BLOCKED] == [] {
        NoneAwake(lists.items, priority, AllDue(now));
      }
    }

    /** Makes every sleeper ready whose time is up; the others stay blocked, in order. */
    method WakeSleepingTasks(now: nat)
      requires Steady() && state[running] == Running
      modifies `state, `reason, `channel, `nextWakeUp, `running, `depth, `pending, `nextSwitch, lists
      ensures Stepped() && Live() == old(Live()) && Blockers() == Keep(old(Blockers()), old(AllDue(now)))
      ensures running == old(running) && state[running] == Running && pending == old(pending)
      ensures nextSwitch == old(nextSwitch)
      ensures lists.items == Awake(old(lists.items), priority, old(AllDue(now)))
      ensures nextWakeUp == if old(lists.items)[BLOCKED] == [] then old(nextWakeUp)
              else Earliest(lists.items[BLOCKED], wakeUp)
    {
      hide AllListed, Placed, IdleThere, Tagged, Keep, Due, Awake, Dispatched, Earliest;
      lists.HeadAt(BLOCKED);
      NothingToKeep(AllDue(now));
      NoneAwakeIf(now);
      if lists.heads[BLOCKED] == NIL {
        return;
      }
      LockScheduler();
      Sweep(now);
      RunningIs();
      UnlockScheduler(now);
    }

    /** The lists, and the next time to wake up, once the sleepers whose time is up have woken at a tick. */
    ghost function AtTick(now: nat): (r: (seq<seq<int>>, nat))
      requires |lists.items| == LISTS
      reads `nextWakeUp, `reason, `wakeUp, lists
      ensures |r.0| == LISTS
    {
      if 0 < nextWakeUp <= now && lists.items[BLOCKED] != [] then
        var items := Awake(lists.items, priority, AllDue(now));
        (items, Earliest(items[BLOCKED], wakeUp))
      else (lists.items, nextWakeUp)
    }

    /** Wakes sleepers when the next time to wake up has come. */
    method WakeWhenDue(now: nat)
      requires Steady() && state[running] == Running
      modifies `state, `reason, `channel, `nextWakeUp, `running, `depth, `pending, `nextSwitch, lists
      ensures Stepped() && Live() == old(Live()) && running == old(running) && state[running] == Running
      ensures pending == old(pending) && nextSwitch == old(nextSwitch)
      ensures Blockers() == if 0 < old(nextWakeUp) <= now then Keep(old(Blockers()), old(AllDue(now)))
              else old(Blockers())
      ensures nextWakeUp == old(AtTick(now)).1 && lists.items == old(AtTick(now)).0
    {
      hide AllListed, Placed, IdleThere, Keep, Due, Tagged, Awake, Earliest;
      NoneAwakeIf(now);
      if nextWakeUp > 0 && now >= nextWakeUp {
        WakeSleepingTasks(now);
      }
    }

    /**
     * The tick of the timer: sleepers whose time is up wake, and at the end of the time slice the first
     * ready process runs, by the lists as they then are.
     */
    method TimerTicked(now: nat)
      requires Steady() && depth == 0
      modifies `state, `reason, `channel, `nextWakeUp, `running, `depth, `pending, `nextSwitch, lists
      ensures Stepped() && Live() == old(Live())
      ensures Blockers() == if 0 < old(nextWakeUp) <= now then Keep(old(Blockers()), old(AllDue(now)))
              else old(Blockers())
      ensures nextWakeUp == old(AtTick(now)).1 && Settled(old(AtTick(now)).0, 0 < old(nextSwitch) <= now, true, now)
    {
      hide AllListed, Placed, IdleThere, Keep, AllDue, Tagged, Awake, Dispatched, FirstReady, AtTick;
      LockScheduler();
      WakeWhenDue(now);
      EndStep(nextSwitch > 0 && now >= nextSwitch, now);
    }

    /** The live processes that have not exited. */
    ghost function Staying(): (ps: set<int>)
      requires |lists.items| == LISTS
      reads `running, lists
    {
      Live() - Elems(lists.items[TERMINATED])
    }

    lemma StateOfTerminated(p: int)
      requires Valid() && p in lists.items[TERMINATED]
      ensures 0 <= p < count && state[p] == Terminated && p in lists.place
    {
      hide AllListed, IdleThere;
      ListIs(TERMINATED);
    }

    lemma NoElems()
      ensures Elems<int>([]) == {}
    {
    }

    lemma FirstElem(list: seq<int>)
      requires list != []
      ensures Elems(list) == {list[0]} + Elems(list[1..])
    {
    }

    method DropTerminated() returns (p: int)
      requires AtRest() && lists.items[TERMINATED] != []
      modifies lists
      ensures AtRest() && Blockers() == old(Blockers()) && Staying() == old(Staying()) && Ended() == old(Ended()) + {p}
      ensures p == old(lists.items)[TERMINATED][0]
      ensures lists.items == old(lists.items)[TERMINATED := old(lists.items)[TERMINATED][1..]]
    {
      hide AllListed, Placed, IdleThere, Tagged;
      RunningIs();
      ListIs(TERMINATED);
      ghost var first := lists.items[TERMINATED][0];
      StateOfTerminated(first);
      Removed(state, priority, lists.place, running, idle, first);
      p := lists.Dequeue(TERMINATED);
    }

    /** The idle process cleans up after the processes that have exited. */
    method CleanUpTerminated() returns (gone: set<int>)
      requires AtRest() && running == idle
      modifies lists
      ensures AtRest() && lists.items == old(lists.items)[TERMINATED := []] && Blockers() == old(Blockers())
      ensures gone == Elems(old(lists.items)[TERMINATED]) && Live() == old(Live()) - gone
      ensures Ended() == old(Ended()) + gone
    {
      hide AllListed, Placed, IdleThere, Tagged, Elems, Ended;
      ghost var rest, all := Staying(), Elems(lists.items[TERMINATED]);
      NoElems();
      lists.ListFacts(TERMINATED);
      var head := lists.heads[TERMINATED];
      gone := {};
      while head != NIL
        invariant AtRest() && running == idle && Blockers() == old(Blockers()) && Staying() == rest
        invariant lists.items == old(lists.items)[TERMINATED := lists.items[TERMINATED]]
        invariant head == NIL <==> lists.items[TERMINATED] == []
        invariant gone + Elems(lists.items[TERMINATED]) == all && Ended() == old(Ended()) + gone
        decreases |lists.items[TERMINATED]|
      {
        FirstElem(lists.items[TERMINATED]);
        var p := DropTerminated();
        gone := gone + {p};
        lists.ListFacts(TERMINATED);
        head := lists.heads[TERMINATED];
      }
    }
  }
}
