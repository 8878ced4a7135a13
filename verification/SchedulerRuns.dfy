/** Whole runs of the scheduler: sleepers that it forgets, and waiters and holders that it does not check. */
module SchedulerRuns {
  import opened Common
  import opened Blocking
  import opened Processes
  import opened Semaphores

  /** Process p is not ready. */
  ghost predicate NotReady(items: seq<seq<int>>, p: int) {
    |items| == LISTS && p != NIL && p in items[BLOCKED] && forall l :: 0 <= l < LEVELS ==> p !in items[l]
  }

  /** Process p sleeps, and no time to wake a process up is set. */
  ghost predicate Forgotten(c: Config, p: int) {
    && c.running != p && c.nextWakeUp == 0 && NotReady(c.items, p)
    && Tag(p, Sleeping, NIL) in c.tags && forall t :: t in c.tags && t.process == p ==> t.reason == Sleeping
  }

  /** The step puts a process to sleep, or is made to wake p up. */
  predicate Reminder(a: Action, p: int) {
    match a
    case Sleep(_) => true
    case Unblock(q) => q == p
    case UnblockThat(why, _) => why == Sleeping
    case _ => false
  }

  lemma {:induction false} FirstIsReady(items: seq<seq<int>>, l: nat)
    requires |items| == LISTS && l <= LEVELS
    ensures FirstReady(items, l) != NIL ==> exists k :: l <= k < LEVELS && FirstReady(items, l) in items[k]
    decreases LEVELS - l
  {
    if l < LEVELS {
      if items[l] != [] {
        assert items[l][0] in items[l];
      } else {
        FirstIsReady(items, l + 1);
      }
    }
  }

  /** The processes of level l are r, which runs, and those in queue, which are ready; no higher level is ready. */
  ghost predicate Turns(e: Env, c: Config, l: nat, queue: seq<int>, r: int) {
    && Proper(e, c) && l < LEVELS && c.running == r && e.priority[r] == l && c.items[l] == queue
    && (forall k :: 0 <= k < l ==> c.items[k] == [])
    && forall i :: 0 <= i < |queue| ==> 0 <= queue[i] < |e.priority| && e.priority[queue[i]] == l
  }

  /** As Turns says after some turns, and no other list has changed. */
  ghost predicate Turned(e: Env, c: Config, c': Config, l: nat, queue: seq<int>, r: int) {
    Turns(e, c', l, queue, r) && |c.items| == LISTS && c'.items == c.items[l := queue]
  }

  /** The running process yields, or the timer ends its time slice and wakes no process up. */
  ghost predicate GivesWay(a: Action, now: nat, c: Config) {
    a == Yield || (a == Tick && 0 < c.nextSwitch <= now && !(0 < c.nextWakeUp <= now && c.tags != []))
  }

  /** With no higher level ready, the process that gives way goes to the end of the queue and the first one runs. */
  lemma TurnTaken(e: Env, c: Config, a: Action, now: nat, l: nat, queue: seq<int>, r: int)
    requires Turns(e, c, l, queue, r) && queue != [] && GivesWay(a, now, c)
    ensures Turned(e, c, Next(e, a, now, c), l, queue[1..] + [r], queue[0])
  {
    hide FirstReady, Dispatched, Awake, Keep, Earliest;
    SwitchOrder(c.items, e.priority, r, true, l);
    var r' := Dispatched(c.items, e.priority, r, true);
    assert forall k :: 0 <= k < LISTS && k != l ==> r'[k] == c.items[k] + [] == c.items[k];
  }

  lemma TurnedTwice(e: Env, c: Config, c': Config, c'': Config, l: nat, q': seq<int>, q'': seq<int>, r': int, r'': int)
    requires Turned(e, c, c', l, q', r') && Turned(e, c', c'', l, q'', r'')
    ensures Turned(e, c, c'', l, q'', r'')
  {
    assert c.items[l := q'][l := q''] == c.items[l := q''];
  }

  /** All but the one at place k of a ring, from the next one on. */
  ghost function After(ring: seq<int>, k: nat): (queue: seq<int>)
    requires k < |ring|
  {
    ring[k + 1..] + ring[..k]
  }

  lemma RingStarts(queue: seq<int>, r: int)
    requires queue != []
    ensures After(queue + [r], 0) == queue[1..] + [r] && (queue + [r])[0] == queue[0]
  {
  }

  lemma RingAt(queue: seq<int>, r: int, k: nat)
    requires k < |queue|
    ensures var ring := queue + [r];
            k % |ring| == k && ring[k] == queue[k] && After(ring, k) == queue[k + 1..] + [r] + queue[..k]
  {
    var ring := queue + [r];
    assert ring[k + 1..] == queue[k + 1..] + [r] && ring[..k] == queue[..k];
  }

  lemma NextPlace(n: nat, m: nat)
    requires 0 < m
    ensures (n + 1) % m == if n % m + 1 < m then n % m + 1 else 0
  {
    var q, k := n / m, n % m;
    assert n + 1 == q * m + (k + 1);
    if k + 1 < m {
      DivMod(q, k + 1, m);
    } else {
      assert q * m + m == (q + 1) * m + 0;
      DivMod(q + 1, 0, m);
    }
  }

  lemma RingTurns(ring: seq<int>, n: nat)
    requires |ring| > 1
    ensures var k, k' := n % |ring|, (n + 1) % |ring|;
            After(ring, k) != [] && After(ring, k)[0] == ring[k'] && After(ring, k)[1..] + [ring[k]] == After(ring, k')
  {
    NextPlace(n, |ring|);
  }

  /** After n + 1 turns the process at place n of the ring runs, counted round it, and those after it wait in order. */
  ghost predicate InTurn(e: Env, c: Config, c': Config, l: nat, ring: seq<int>, n: nat) {
    ring != [] && Turned(e, c, c', l, After(ring, n % |ring|), ring[n % |ring|])
  }

  lemma NextInTurn(e: Env, c: Config, c': Config, a: Action, now: nat, l: nat, ring: seq<int>, n: nat)
    requires |ring| > 1 && InTurn(e, c, c', l, ring, n) && GivesWay(a, now, c')
    ensures InTurn(e, c, Next(e, a, now, c'), l, ring, n + 1)
  {
    hide Next, Turns, GivesWay, After;
    RingTurns(ring, n);
    var k, k' := n % |ring|, (n + 1) % |ring|;
    TurnTaken(e, c', a, now, l, After(ring, k), ring[k]);
    TurnedTwice(e, c, c', Next(e, a, now, c'), l, After(ring, k), After(ring, k'), ring[k], ring[k']);
  }

  /**
   * With no higher level ready, the processes of a level take turns: the one at place k of the queue runs after
   * k + 1 turns, then the one that ran first, and so on round the ring. No other list changes.
   */
  lemma {:induction false} RoundRobin(e: Env, actions: seq<Action>, times: seq<nat>, c: Config, l: nat, queue: seq<int>,
                                      r: int, n: nat)
    requires Turns(e, c, l, queue, r) && queue != [] && n < |actions| == |times|
    requires forall i :: 0 <= i <= n ==> GivesWay(actions[i], times[i], AfterAll(e, actions, times, c, i))
    ensures InTurn(e, c, AfterAll(e, actions, times, c, n + 1), l, queue + [r], n)
  {
    hide Next, Turns, GivesWay, After;
    if n == 0 {
      TurnTaken(e, c, actions[0], times[0], l, queue, r);
      RingStarts(queue, r);
    } else {
      RoundRobin(e, actions, times, c, l, queue, r, n - 1);
      hide InTurn;
      NextInTurn(e, c, AfterAll(e, actions, times, c, n), actions[n], times[n], l, queue + [r], n - 1);
    }
  }

  /** The process at place k of its level's queue runs after k + 1 turns, if no higher level is ready. */
  lemma RunsInTurn(e: Env, actions: seq<Action>, times: seq<nat>, c: Config, l: nat, queue: seq<int>, r: int, k: nat)
    requires Turns(e, c, l, queue, r) && k < |queue| && k < |actions| == |times|
    requires forall i :: 0 <= i <= k ==> actions[i] == Yield
    ensures var c' := AfterAll(e, actions, times, c, k + 1);
            c'.running == queue[k] && c'.items == c.items[l := queue[k + 1..] + [r] + queue[..k]]
  {
    hide Next, After;
    RoundRobin(e, actions, times, c, l, queue, r, k);
    RingAt(queue, r, k);
  }

  lemma DispatchedNotReady(items: seq<seq<int>>, priority: seq<nat>, running: int, stays: bool, p: int)
    requires NotReady(items, p) && running != p && forall q :: 0 <= q < |priority| ==> priority[q] < LEVELS
    ensures NotReady(Dispatched(items, priority, running, stays), p)
  {
  }

  lemma MovedNotReady(e: Env, c: Config, items: seq<seq<int>>, due: bool, stays: bool, now: nat, p: int)
    requires Proper(e, c) && NotReady(items, p) && c.running != p
    ensures NotReady(Moved(e, c, items, due, stays, now).items, p) && Moved(e, c, items, due, stays, now).running != p
  {
    FirstIsReady(items, 0);
    DispatchedNotReady(items, e.priority, c.running, stays, p);
  }

  lemma {:induction false} KeepIs(tags: seq<Tag>, gone: set<int>)
    ensures forall t :: t in Keep(tags, gone) <==> t in tags && t.process !in gone
  {
    if tags != [] {
      KeepIs(tags[1..], gone);
    }
  }

  /** Another process is unblocked. */
  lemma UnblockNotReady(e: Env, c: Config, items: seq<seq<int>>, q: int, p: int)
    requires Proper(e, c) && Forgotten(c, p) && NotReady(items, p) && q != p && 0 <= q < |e.priority|
    ensures NotReady(Freed(items, e.priority, q), p)
    ensures Tag(p, Sleeping, NIL) in Keep(c.tags, {q}) && forall t :: t in Keep(c.tags, {q}) ==> t in c.tags
  {
    KeepIs(c.tags, {q});
  }

  lemma {:induction false} WaiterHasTag(tags: seq<Tag>, s: int)
    requires Waiters(tags, s) != []
    ensures Tag(Waiters(tags, s)[0], OnSemaphore, s) in tags
  {
    if !(tags[0].reason == OnSemaphore && tags[0].channel == s) {
      WaiterHasTag(tags[1..], s);
    }
  }

  lemma {:induction false} FirstPlaceIs(tags: seq<Tag>, why: Reason, on: int)
    ensures var k := FirstPlace(tags, why, on);
            k < |tags| ==> tags[k].reason == why
  {
    if tags != [] && !(tags[0].reason == why && tags[0].channel == on) {
      FirstPlaceIs(tags[1..], why, on);
    }
  }

  lemma BlockKeeps(e: Env, c: Config, why: Reason, on: int, now: nat, p: int)
    requires Proper(e, c) && Forgotten(c, p)
    ensures Forgotten(AfterBlock(e, c, why, on, now), p)
  {
    hide Successor, SliceEnd, Dispatched;
    MovedNotReady(e, c, c.items[BLOCKED := c.items[BLOCKED] + [c.running]], true, false, now, p);
  }

  lemma UnblockKeeps(e: Env, c: Config, q: int, now: nat, p: int)
    requires Proper(e, c) && Forgotten(c, p) && q != p && 0 <= q < |e.priority|
    ensures Forgotten(AfterUnblock(e, c, q, now), p)
  {
    hide Successor, SliceEnd, Dispatched, Freed, Keep;
    UnblockNotReady(e, c, c.items, q, p);
    MovedNotReady(e, c, Freed(c.items, e.priority, q), e.priority[c.running] > e.priority[q], true, now, p);
  }

  lemma ReleaseKeeps(e: Env, c: Config, s: nat, now: nat, p: int)
    requires Proper(e, c) && Forgotten(c, p) && s < |c.sems|
    ensures Forgotten(AfterRelease(e, c, s, now), p)
  {
    hide AfterUnblock, Waiters;
    var ws := Waiters(c.tags, s);
    if ws != [] && 0 <= ws[0] < |e.priority| {
      WaiterHasTag(c.tags, s);
      UnblockKeeps(e, c, ws[0], now, p);
    }
  }

  lemma ExitKeeps(e: Env, c: Config, now: nat, p: int)
    requires Proper(e, c) && Forgotten(c, p)
    ensures Forgotten(AfterExit(e, c, now), p)
  {
    hide Successor, SliceEnd, Dispatched, Freed, Keep;
    var par, items := e.parent[c.running], c.items[TERMINATED := c.items[TERMINATED] + [c.running]];
    if 0 <= par < |e.priority| && AwaitsChild(c.tags, par) {
      UnblockNotReady(e, c, items, par, p);
      MovedNotReady(e, c, Freed(items, e.priority, par), true, false, now, p);
    } else {
      MovedNotReady(e, c, items, true, false, now, p);
    }
  }

  lemma StartKeeps(e: Env, c: Config, q: int, now: nat, p: int)
    requires Proper(e, c) && Forgotten(c, p) && 0 <= q < |e.priority| && Unlisted(c, q)
    ensures Forgotten(AfterStart(e, c, q, now), p)
  {
    hide Successor, SliceEnd, Dispatched;
    MovedNotReady(e, c, c.items[e.priority[q] := c.items[e.priority[q]] + [q]], e.priority[q] < e.priority[c.running],
                  true, now, p);
  }

  /** A forgotten sleeper stays so until some process is put to sleep, or it is unblocked from outside. */
  lemma StaysForgotten(e: Env, a: Action, now: nat, c: Config, p: int)
    requires Forgotten(c, p) && !Reminder(a, p)
    ensures Forgotten(Next(e, a, now, c), p)
  {
    hide AfterBlock, AfterUnblock, AfterRelease, AfterExit, AfterStart;
    hide FirstPlace, Awake, Earliest, RunsParent, BlockedElse;
    hide Successor, SliceEnd, Dispatched;
    if Proper(e, c) {
      match a {
        case Acquire(s) => BlockKeeps(e, c, OnSemaphore, s, now, p);
        case Release(s) =>
          if s < |c.sems| {
            ReleaseKeeps(e, c, s, now, p);
          }
        case Block(why, on) => BlockKeeps(e, c, why, on, now, p);
        case Unblock(q) =>
          if 0 <= q < |e.priority| {
            UnblockKeeps(e, c, q, now, p);
          }
        case UnblockThat(why, on) =>
          FirstPlaceIs(c.tags, why, on);
          var k := FirstPlace(c.tags, why, on);
          if k < |c.tags| {
            UnblockKeeps(e, c, c.tags[k].process, now, p);
          }
        case Start(q) =>
          if 0 <= q < |e.priority| && Unlisted(c, q) {
            StartKeeps(e, c, q, now, p);
          }
        case Yield => MovedNotReady(e, c, c.items, true, true, now, p);
        case WaitChild => BlockKeeps(e, c, ChildExit, NIL, now, p);
        case Exit => ExitKeeps(e, c, now, p);
        case Tick => MovedNotReady(e, c, c.items, 0 < c.nextSwitch <= now, true, now, p);
        case _ =>
      }
    }
  }

  lemma SameTimes(e: Env, a: Action, now: nat, c: Config)
    ensures a.Sleep? || Next(e, a, now, c).wakeUp == c.wakeUp
  {
    hide Successor, SliceEnd, Dispatched, Freed, Keep, Waiters, Awake, Earliest, RunsParent, BlockedElse, FirstPlace;
  }

  /** A forgotten sleeper sleeps through every run in which no process is put to sleep or unblocks it from outside. */
  lemma {:induction false} SleepsOn(e: Env, actions: seq<Action>, times: seq<nat>, c: Config, n: nat, p: int)
    requires Forgotten(c, p) && n <= |actions| == |times| && forall i :: 0 <= i < n ==> !Reminder(actions[i], p)
    ensures Forgotten(AfterAll(e, actions, times, c, n), p) && AfterAll(e, actions, times, c, n).wakeUp == c.wakeUp
  {
    hide Forgotten, Next;
    if n > 0 {
      SleepsOn(e, actions, times, c, n - 1, p);
      StaysForgotten(e, actions[n - 1], times[n - 1], AfterAll(e, actions, times, c, n - 1), p);
      SameTimes(e, actions[n - 1], times[n - 1], AfterAll(e, actions, times, c, n - 1));
    }
  }

  /** The queues of a system with processes of priorities 4 and 7 only, and none that has exited. */
  function Queues(middle: seq<int>, last: seq<int>, blocked: seq<int>): (items: seq<seq<int>>) {
    [[], [], [], [], middle, [], [], last, blocked, [], []]
  }

  /** Three processes of priority 4 and the idle process, which is process 3. */
  const SMALL := Env(3, [4, 4, 4, 7], [NIL, NIL, NIL, NIL])

  lemma FirstOf(middle: seq<int>, last: seq<int>, blocked: seq<int>)
    ensures FirstReady(Queues(middle, last, blocked), 0) ==
            if middle != [] then middle[0] else if last != [] then last[0] else NIL
  {
    FirstLevel(Queues(middle, last, blocked), 0, if middle != [] then 4 else if last != [] then 7 else LEVELS);
  }

  /** While the idle process runs, process p is started and runs in its place. */
  lemma Starts(c: Config, p: int)
    requires Proper(SMALL, c) && c.running == 3 && 0 <= p < 3 && c.items == Queues([], [], c.items[BLOCKED])
    requires p !in c.items[BLOCKED] && p !in c.ended
    ensures Next(SMALL, Start(p), 0, c) ==
              c.(running := p, items := Queues([], [3], c.items[BLOCKED]), nextSwitch := TIMESLICE)
  {
    var blocked := c.items[BLOCKED];
    FirstOf([p], [], blocked);
    assert [] + [p] == [p] && [] + [3] == [3] && [p][1..] == [];
    assert c.items[4 := [p]] == Queues([p], [], blocked);
    assert Queues([p], [], blocked)[4 := []][7 := [3]] == Queues([], [3], blocked);
  }

  /** Process p blocks and the idle process runs in its place. */
  lemma Blocks(c: Config, why: Reason, on: int)
    requires Proper(SMALL, c) && 0 <= c.running < 3 && c.items == Queues([], [3], c.items[BLOCKED])
    ensures AfterBlock(SMALL, c, why, on, 0) ==
            c.(running := 3, items := Queues([], [], c.items[BLOCKED] + [c.running]), nextSwitch := TIMESLICE,
               tags := c.tags + [Tag(c.running, why, on)])
  {
    var blocked := c.items[BLOCKED] + [c.running];
    FirstOf([], [3], blocked);
    assert c.items[BLOCKED := blocked] == Queues([], [3], blocked);
    assert [3][1..] == [] && Queues([], [3], blocked)[7 := []] == Queues([], [], blocked);
  }

  /** A state in which the idle process runs, nothing is ready and there are no semaphores. */
  ghost function Idling(blocked: seq<int>, tags: seq<Tag>, wakeUp: seq<nat>, nextWakeUp: nat,
                        nextSwitch: nat): (c: Config) {
    Config(3, Queues([], [], blocked), {}, tags, wakeUp, nextWakeUp, nextSwitch, [], [])
  }

  /** Process p is started and sleeps. */
  lemma StartsAndSleeps(blocked: seq<int>, tags: seq<Tag>, wakeUp: seq<nat>, next: nat, end: nat, p: int, t: int)
    requires 0 <= p < 3 && p !in blocked && 0 < t && |wakeUp| == 4
    requires forall k :: 0 <= k < |tags| ==> 0 <= tags[k].process < 4
    ensures Next(SMALL, Sleep(t), 0, Next(SMALL, Start(p), 0, Idling(blocked, tags, wakeUp, next, end))) ==
            Idling(blocked + [p], tags + [Tag(p, Sleeping, NIL)], wakeUp[p := t], Sooner(next, t), TIMESLICE)
  {
    hide AfterStart, AfterBlock;
    var c := Idling(blocked, tags, wakeUp, next, end);
    Starts(c, p);
    Blocks(Next(SMALL, Start(p), 0, c), Sleeping, NIL);
  }

  /** Process p is started and waits for input. */
  lemma StartsAndWaits(blocked: seq<int>, tags: seq<Tag>, wakeUp: seq<nat>, next: nat, end: nat, p: int)
    requires 0 <= p < 3 && p !in blocked && |wakeUp| == 4 && forall k :: 0 <= k < |tags| ==> 0 <= tags[k].process < 4
    ensures Next(SMALL, Block(UserInput, NIL), 0, Next(SMALL, Start(p), 0, Idling(blocked, tags, wakeUp, next, end))) ==
            Idling(blocked + [p], tags + [Tag(p, UserInput, NIL)], wakeUp, next, TIMESLICE)
  {
    hide AfterStart, AfterBlock;
    var c := Idling(blocked, tags, wakeUp, next, end);
    Starts(c, p);
    Blocks(Next(SMALL, Start(p), 0, c), UserInput, NIL);
  }

  /** Process 0 sleeps until 100, process 1 until 200, process 2 waits for input, and a tick comes at 100. */
  const SCRIPT := [Start(0), Sleep(100), Start(1), Sleep(200), Start(2), Block(UserInput, NIL), Tick]
  const CLOCK: seq<nat> := [0, 0, 0, 0, 0, 0, 100]

  lemma TwoSteps(e: Env, actions: seq<Action>, times: seq<nat>, c: Config, n: nat)
    requires n + 2 <= |actions| == |times|
    ensures AfterAll(e, actions, times, c, n + 2) ==
            Next(e, actions[n + 1], times[n + 1], Next(e, actions[n], times[n], AfterAll(e, actions, times, c, n)))
  {
    assert AfterAll(e, actions, times, c, n + 1) == Next(e, actions[n], times[n], AfterAll(e, actions, times, c, n));
  }

  lemma BeforeTick()
    ensures AfterAll(SMALL, SCRIPT, CLOCK, Idling([], [], [0, 0, 0, 0], 0, 0), 6) ==
            Idling([0, 1, 2], [Tag(0, Sleeping, NIL), Tag(1, Sleeping, NIL), Tag(2, UserInput, NIL)], [100, 200, 0, 0],
                   100, TIMESLICE)
  {
    hide Next, Idling;
    var c0, s0, s1, s2 := Idling([], [], [0, 0, 0, 0], 0, 0), Tag(0, Sleeping, NIL), Tag(1, Sleeping, NIL),
        Tag(2, UserInput, NIL);
    var c2 := Idling([0], [s0], [100, 0, 0, 0], 100, TIMESLICE);
    var c4 := Idling([0, 1], [s0, s1], [100, 200, 0, 0], 100, TIMESLICE);
    StartsAndSleeps([], [], [0, 0, 0, 0], 0, 0, 0, 100);
    assert [] + [0] == [0] && [] + [s0] == [s0] && [0, 0, 0, 0][0 := 100] == [100, 0, 0, 0];
    TwoSteps(SMALL, SCRIPT, CLOCK, c0, 0);
    assert AfterAll(SMALL, SCRIPT, CLOCK, c0, 2) == c2;
    TwoSteps(SMALL, SCRIPT, CLOCK, c0, 2);
    TwoSteps(SMALL, SCRIPT, CLOCK, c0, 4);
    StartsAndSleeps([0], [s0], [100, 0, 0, 0], 100, TIMESLICE, 1, 200);
    assert [0] + [1] == [0, 1] && [s0] + [s1] == [s0, s1] && [100, 0, 0, 0][1 := 200] == [100, 200, 0, 0];
    assert AfterAll(SMALL, SCRIPT, CLOCK, c0, 4) == c4;
    StartsAndWaits([0, 1], [s0, s1], [100, 200, 0, 0], 100, TIMESLICE, 2);
    assert [0, 1] + [2] == [0, 1, 2] && [s0, s1] + [s2] == [s0, s1, s2];
  }

  lemma WokenFirst(l: nat)
    ensures Woken([0, 1, 2], {0}, [4, 4, 4, 7], l) == if l == 4 then [0] else []
    ensures Rest([0, 1, 2], {0}) == [1, 2]
  {
    assert [0, 1, 2][..2] == [0, 1] && [0, 1][..1] == [0] && [0][..0] == [];
    assert Rest([0], {0}) == [] && Rest([0, 1], {0}) == [1];
    assert Woken([0], {0}, [4, 4, 4, 7], l) == if l == 4 then [0] else [];
    assert Woken([0, 1], {0}, [4, 4, 4, 7], l) == if l == 4 then [0] else [];
  }

  lemma AwakeFirst()
    ensures Awake(Queues([], [], [0, 1, 2]), [4, 4, 4, 7], {0}) == Queues([0], [], [1, 2])
  {
    hide Woken, Rest;
    var items, r := Queues([], [], [0, 1, 2]), Queues([0], [], [1, 2]);
    var awake := Awake(items, [4, 4, 4, 7], {0});
    forall l | 0 <= l < LISTS
      ensures awake[l] == r[l]
    {
      WokenFirst(l);
      assert [] + items[l] == items[l] && [0] + [] == [0];
    }
  }

  /** The tick wakes process 0 up and forgets process 1, which is to sleep until 200. */
  lemma TickForgets(c: Config)
    requires c == Idling([0, 1, 2], [Tag(0, Sleeping, NIL), Tag(1, Sleeping, NIL), Tag(2, UserInput, NIL)],
                         [100, 200, 0, 0], 100, TIMESLICE)
    ensures var c' := Next(SMALL, Tick, 100, c);
            Forgotten(c', 1) && c'.running == 0 && c'.wakeUp == c.wakeUp
  {
    hide Awake, Dispatched, Earliest, Keep;
    assert c.tags[0].process == 0;
    assert DueAt(c, 100) == {0};
    AwakeFirst();
    var items := Queues([0], [], [1, 2]);
    FirstOf([0], [], [1, 2]);
    assert Earliest([1, 2], [100, 200, 0, 0]) == 0 by {
      EarliestStep([1], 2, [100, 200, 0, 0]);
      assert [1] + [2] == [1, 2];
    }
    KeepIs(c.tags, {0});
    DispatchedNotReady(items, SMALL.priority, 3, true, 1);
    assert c.tags[1] in c.tags;
  }

  lemma ScriptForgets()
    ensures var c := AfterAll(SMALL, SCRIPT, CLOCK, Idling([], [], [0, 0, 0, 0], 0, 0), 7);
            Forgotten(c, 1) && c.wakeUp == [100, 200, 0, 0]
  {
    hide Next, Forgotten, Queues;
    BeforeTick();
    TickForgets(AfterAll(SMALL, SCRIPT, CLOCK, Idling([], [], [0, 0, 0, 0], 0, 0), 6));
  }

  /**
   * The run on a new system, and any run after it in which no process is put to sleep and process 1 is not
   * unblocked from outside: whatever the time, process 1 sleeps on, past the end of its sleep at 200.
   */
  method ForgetsSleeper(rest: seq<Action>, times: seq<nat>) returns (s: Semaphores)
    requires |rest| == |times| && forall i :: 0 <= i < |rest| ==> !Reminder(rest[i], 1)
    ensures fresh(s) && fresh(s.m) && s.Valid()
    ensures Tag(1, Sleeping, NIL) in s.m.Blockers() && s.m.wakeUp == [100, 200, 0, 0] && s.m.nextWakeUp == 0
  {
    hide Semaphores.Valid, Multitasking.AtRest, Multitasking.Blockers, AfterAll, NotReady;
    var m := new Multitasking(4, [4, 4, 4, 7], [NIL, NIL, NIL, NIL], 3);
    s := new Semaphores(m);
    assert m.wakeUp == [0, 0, 0, 0] && m.lists.items == Queues([], [], []);
    var held, live := s.Run(SCRIPT, CLOCK, [], {3});
    ScriptForgets();
    ghost var c := s.Now();
    held, live := s.Run(rest, times, held, live);
    SleepsOn(SMALL, rest, times, c, |rest|, 1);
  }

  /** A semaphore of limit 0 is created, and process 0 is started and waits for it. */
  lemma Waits()
    ensures AfterAll(SMALL, [Create(0), Start(0), Acquire(0)], [0, 0, 0], Idling([], [], [0, 0, 0, 0], 0, 0), 3) ==
            Config(3, Queues([], [], [0]), {}, [Tag(0, OnSemaphore, 0)], [0, 0, 0, 0], 0, TIMESLICE,
                   [Semaphore(0, 0, 1)], [History(multiset{}, [0], [])])
  {
    hide AfterStart, AfterBlock;
    var actions, times, c0 := [Create(0), Start(0), Acquire(0)], [0, 0, 0], Idling([], [], [0, 0, 0, 0], 0, 0);
    var c1 := c0.(sems := [Semaphore(0, 0, 0)], hist := [History(multiset{}, [], [])]);
    assert AfterAll(SMALL, actions, times, c0, 1) == c1;
    TwoSteps(SMALL, actions, times, c0, 1);
    Starts(c1, 0);
    Blocks(Next(SMALL, Start(0), 0, c1), OnSemaphore, 0);
    assert [] + [0] == [0];
  }

  /** A waiter that is unblocked from outside is counted as waiting for ever after. */
  method UnblocksWaiter() returns (s: Semaphores)
    ensures fresh(s) && fresh(s.m) && s.m.AtRest() && !s.Valid()
    ensures s.m.Blockers() == [] && s.sems == [Semaphore(0, 0, 1)]
  {
    hide Semaphores.Valid, Multitasking.AtRest, Multitasking.Blockers, AfterAll;
    var m := new Multitasking(4, [4, 4, 4, 7], [NIL, NIL, NIL, NIL], 3);
    s := new Semaphores(m);
    assert m.wakeUp == [0, 0, 0, 0] && m.lists.items == Queues([], [], []);
    var held, live := s.Run([Create(0), Start(0), Acquire(0)], [0, 0, 0], [], {3});
    Waits();
    s.UnblocksAny(0, 0, 0);
  }

  /** A process that releases a semaphore it does not hold brings the count below zero. */
  method ReleasesUnheld() returns (s: Semaphores)
    ensures fresh(s) && fresh(s.m) && s.m.AtRest() && !s.Valid()
    ensures s.sems == [Semaphore(-1, 1, 0)]
  {
    hide AllSound, Multitasking.AtRest, Multitasking.Blockers, Multitasking.Live, Proper;
    var m := new Multitasking(4, [4, 4, 4, 7], [NIL, NIL, NIL, NIL], 3);
    s := new Semaphores(m);
    var k := s.CreateSemaphore(1);
    assert Waiters(m.Blockers(), 0) == [];
    var to := s.ReleaseSemaphore(0, 0);
  }
}
