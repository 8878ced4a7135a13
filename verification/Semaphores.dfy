/** Counting semaphores over the process queues, and every interleaving of their use. */
module Semaphores {
  import opened Common
  import opened Blocking
  import opened Processes
  import opened SlotLists
  import opened ProcLists

  datatype Semaphore = Semaphore(count: int, limit: int, waiting: int)

  /** Who holds a semaphore, who ever blocked on it, and whom it was handed to on release. */
  datatype History = History(holders: multiset<int>, arrived: seq<int>, granted: seq<int>)

  /**
   * What holds for a semaphore: the count is within the limit and is the number of holders, the
   * waiters are counted and come only when the limit is reached, and the processes that ever
   * blocked on it are those it was handed to, followed by those still waiting, in one order.
   */
  ghost predicate Sound(sem: Semaphore, h: History, waiters: seq<int>) {
    && 0 <= sem.count <= sem.limit && |h.holders| == sem.count
    && sem.waiting == |waiters| && (sem.waiting > 0 ==> sem.count == sem.limit)
    && h.arrived == h.granted + waiters
  }

  /** Every process blocked on a semaphore is blocked on one of the first n. */
  ghost predicate Known(tags: seq<Tag>, n: nat) {
    forall i :: 0 <= i < |tags| && tags[i].reason == OnSemaphore ==> 0 <= tags[i].channel < n
  }

  ghost predicate AllSound(tags: seq<Tag>, sems: seq<Semaphore>, hist: seq<History>) {
    && |sems| == |hist| && Known(tags, |sems|)
    && forall s :: 0 <= s < |sems| ==> Sound(sems[s], hist[s], Waiters(tags, s))
  }

  /** A change of one semaphore that leaves the waiters of the others alone. */
  lemma OneChanged(tags: seq<Tag>, tags': seq<Tag>, sems: seq<Semaphore>, hist: seq<History>, s: nat, sem: Semaphore,
                   h: History)
    requires AllSound(tags, sems, hist) && s < |sems| && Known(tags', |sems|)
    requires Sound(sem, h, Waiters(tags', s))
    requires forall r :: 0 <= r < |sems| && r != s ==> Waiters(tags', r) == Waiters(tags, r)
    ensures AllSound(tags', sems[s := sem], hist[s := h])
  {
  }

  lemma {:induction false} KnownKept(tags: seq<Tag>, gone: set<int>, n: nat)
    requires Known(tags, n)
    ensures Known(Keep(tags, gone), n)
  {
    if tags != [] {
      KnownKept(tags[1..], gone, n);
    }
  }

  /** Processes that do not wait for a semaphore leave the blocked list. */
  lemma OthersLeave(tags: seq<Tag>, gone: set<int>, sems: seq<Semaphore>, hist: seq<History>)
    requires AllSound(tags, sems, hist)
    requires forall i :: 0 <= i < |tags| && tags[i].process in gone ==> tags[i].reason != OnSemaphore
    ensures AllSound(Keep(tags, gone), sems, hist)
  {
    hide Waiters;
    forall s | 0 <= s < |sems|
      ensures Waiters(Keep(tags, gone), s) == Waiters(tags, s)
    {
      WaitersKept(tags, gone, s);
    }
    KnownKept(tags, gone, |sems|);
  }

  lemma WaiterLost(tags: seq<Tag>, k: nat)
    requires k < |tags| && tags[k].reason == OnSemaphore && Unalike(tags)
    ensures var t := tags[k]; |Waiters(Keep(tags, {t.process}), t.channel)| == |Waiters(tags, t.channel)| - 1
  {
    hide Waiters, Keep;
    var t := tags[k];
    var a, b, s, gone := tags[..k], tags[k + 1..], t.channel, {t.process};
    assert tags == a + [t] + b;
    KeepConcat(a + [t], b, gone);
    KeepConcat(a, [t], gone);
    KeepAll(a, gone);
    KeepAll(b, gone);
    OneTag(t, s);
    assert Keep(tags, gone) == a + b;
    WaitersConcat(a + [t], b, s);
    WaitersConcat(a, [t], s);
    WaitersConcat(a, b, s);
  }

  /**
   * Unblocking a process from outside, at place k of the blocked list, keeps the semaphores sound exactly
   * when it does not wait for one: the count of waiters would be one too high.
   */
  lemma UnblockSafeIff(tags: seq<Tag>, k: nat, sems: seq<Semaphore>, hist: seq<History>)
    requires AllSound(tags, sems, hist) && k < |tags| && Unalike(tags)
    ensures AllSound(Keep(tags, {tags[k].process}), sems, hist) <==> tags[k].reason != OnSemaphore
  {
    var t, p := tags[k], tags[k].process;
    if t.reason != OnSemaphore {
      OthersLeave(tags, {p}, sems, hist);
    } else {
      hide Waiters, Keep;
      WaiterLost(tags, k);
      assert Sound(sems[t.channel], hist[t.channel], Waiters(tags, t.channel));
    }
  }

  /** A process blocks for another reason than a semaphore. */
  lemma OtherBlocks(tags: seq<Tag>, t: Tag, sems: seq<Semaphore>, hist: seq<History>)
    requires AllSound(tags, sems, hist) && t.reason != OnSemaphore
    ensures AllSound(tags + [t], sems, hist)
  {
    hide Waiters;
    forall s | 0 <= s < |sems|
      ensures Waiters(tags + [t], s) == Waiters(tags, s)
    {
      WaitersAppend(tags, t, s);
    }
  }

  /** A process blocks on semaphore s, which is at its limit. */
  lemma Arrives(tags: seq<Tag>, p: int, sems: seq<Semaphore>, hist: seq<History>, s: nat)
    requires AllSound(tags, sems, hist) && s < |sems| && sems[s].count == sems[s].limit
    ensures AllSound(tags + [Tag(p, OnSemaphore, s)], sems[s := sems[s].(waiting := sems[s].waiting + 1)],
                     hist[s := hist[s].(arrived := hist[s].arrived + [p])])
  {
    hide Waiters;
    var t := Tag(p, OnSemaphore, s);
    forall r | 0 <= r < |sems|
      ensures Waiters(tags + [t], r) == Waiters(tags, r) + if r == s then [p] else []
    {
      WaitersAppend(tags, t, r);
    }
    var h := hist[s].(arrived := hist[s].arrived + [p]);
    assert hist[s].granted + Waiters(tags, s) + [p] == hist[s].granted + (Waiters(tags, s) + [p]);
    OneChanged(tags, tags + [t], sems, hist, s, sems[s].(waiting := sems[s].waiting + 1), h);
  }

  /** Place k of the blocked list is the first that waits for semaphore s. */
  ghost predicate FirstAt(tags: seq<Tag>, k: nat, s: int) {
    && k < |tags| && tags[k].reason == OnSemaphore && tags[k].channel == s
    && forall i :: 0 <= i < k ==> tags[i].reason != OnSemaphore || tags[i].channel != s
  }

  /** Semaphore s goes from p to the first waiter, which is right exactly when p holds it. */
  lemma HandedOver(tags: seq<Tag>, k: nat, p: int, sems: seq<Semaphore>, hist: seq<History>, s: nat)
    requires AllSound(tags, sems, hist) && s < |sems| && Unalike(tags) && FirstAt(tags, k, s)
    ensures Waiters(tags, s) != []
    ensures var q := Waiters(tags, s)[0];
            AllSound(Keep(tags, {q}), sems[s := sems[s].(waiting := sems[s].waiting - 1)],
                     hist[s := History(hist[s].holders - multiset{p} + multiset{q}, hist[s].arrived, hist[s].granted +
                                       [q])]) <==>
            p in hist[s].holders
  {
    hide Waiters;
    var q := tags[k].process;
    FirstWaiterLeaves(tags, k, s);
    KnownKept(tags, {q}, |sems|);
    var sem, h := sems[s].(waiting := sems[s].waiting - 1),
        History(hist[s].holders - multiset{p} + multiset{q}, hist[s].arrived, hist[s].granted + [q]);
    assert hist[s].granted + [q] + Waiters(Keep(tags, {q}), s) == hist[s].granted + Waiters(tags, s);
    if p in hist[s].holders {
      OneChanged(tags, Keep(tags, {q}), sems, hist, s, sem, h);
    } else {
      assert hist[s].holders - multiset{p} == hist[s].holders;
      assert !Sound(sem, h, Waiters(Keep(tags, {q}), s));
      assert sems[s := sem][s] == sem && hist[s := h][s] == h;
    }
  }

  /** Semaphore s is released by p with nobody waiting, which is right exactly when p holds it. */
  lemma SetFree(tags: seq<Tag>, p: int, sems: seq<Semaphore>, hist: seq<History>, s: nat)
    requires AllSound(tags, sems, hist) && s < |sems| && Waiters(tags, s) == []
    ensures AllSound(tags, sems[s := sems[s].(count := sems[s].count - 1)],
                     hist[s := hist[s].(holders := hist[s].holders - multiset{p})]) <==>
            p in hist[s].holders
  {
    hide Waiters;
    var sem, h := sems[s].(count := sems[s].count - 1), hist[s].(holders := hist[s].holders - multiset{p});
    if p in hist[s].holders {
      OneChanged(tags, tags, sems, hist, s, sem, h);
    } else {
      assert hist[s].holders - multiset{p} == hist[s].holders;
      assert !Sound(sem, h, Waiters(tags, s));
      assert sems[s := sem][s] == sem && hist[s := h][s] == h;
    }
  }

  /** A step of the running process, of a driver, or of the timer. */
  datatype Action =
    | Create(limit: int)
    | Acquire(s: nat)
    | Release(s: nat)
    | Block(why: Reason, on: int)
    | Unblock(p: int)
    | UnblockThat(why: Reason, on: int)
    | Start(p: int)
    | Yield
    | Sleep(milliseconds: int)
    | WaitChild
    | Exit
    | Tick
    | CleanUp

  /** Histories only grow. */
  ghost predicate Later(a: seq<History>, b: seq<History>) {
    |a| <= |b| && forall s :: 0 <= s < |a| ==> a[s].arrived <= b[s].arrived && a[s].granted <= b[s].granted
  }

  lemma LaterSelf(a: seq<History>)
    ensures Later(a, a)
  {
  }

  lemma LaterAt(a: seq<History>, s: nat, h: History)
    requires s < |a| && a[s].arrived <= h.arrived && a[s].granted <= h.granted
    ensures Later(a, a[s := h])
  {
  }

  lemma LaterTwice(a: seq<History>, b: seq<History>, c: seq<History>)
    requires Later(a, b) && Later(b, c)
    ensures Later(a, c)
  {
  }

  /** What does not change: the idle process, priorities and parents. */
  datatype Env = Env(idle: int, priority: seq<nat>, parent: seq<int>)

  /**
   * The queues of processes and the semaphores, as one value: who runs, the lists, who has been cleaned up, the
   * reasons of the blocked processes, the times to wake up, the end of the time slice, and the semaphores with
   * their histories.
   */
  datatype Config = Config(running: int, items: seq<seq<int>>, ended: set<int>, tags: seq<Tag>, wakeUp: seq<nat>,
                           nextWakeUp: nat,
                           nextSwitch: nat, sems: seq<Semaphore>, hist: seq<History>)

  ghost predicate Proper(e: Env, c: Config) {
    && |c.items| == LISTS && |c.sems| == |c.hist| && |e.priority| == |e.parent| == |c.wakeUp|
    && 0 <= c.running < |e.priority|
    && (forall p :: 0 <= p < |e.priority| ==> e.priority[p] < LEVELS)
    && (forall k :: 0 <= k < |c.tags| ==> 0 <= c.tags[k].process < |e.priority|)
  }

  /** The lists are those given, and then a switch is made if one is due. */
  ghost function Moved(e: Env, c: Config, items: seq<seq<int>>, due: bool, stays: bool, now: nat): (c': Config)
    requires Proper(e, c) && |items| == LISTS
  {
    c.(running := Successor(items, c.running, due), nextSwitch := SliceEnd(items, c.nextSwitch, due, now),
       items := if due then Dispatched(items, e.priority, c.running, stays) else items)
  }

  /** The running process blocks. */
  ghost function AfterBlock(e: Env, c: Config, why: Reason, on: int, now: nat): (c': Config)
    requires Proper(e, c)
  {
    Moved(e, c, c.items[BLOCKED := c.items[BLOCKED] + [c.running]], true, false, now).(tags := c.tags +
        [Tag(c.running, why, on)])
  }

  /** Process p, which is blocked, is unblocked. */
  ghost function AfterUnblock(e: Env, c: Config, p: int, now: nat): (c': Config)
    requires Proper(e, c) && 0 <= p < |e.priority|
  {
    Moved(e, c, Freed(c.items, e.priority, p), e.priority[c.running] > e.priority[p], true,
          now).(tags := Keep(c.tags, {p}))
  }

  /** The running process takes semaphore s, or waits for it. */
  ghost function AfterAcquire(e: Env, c: Config, s: nat, now: nat): (c': Config)
    requires Proper(e, c) && s < |c.sems|
  {
    var sem, h := c.sems[s], c.hist[s];
    if sem.count < sem.limit then
      c.(sems := c.sems[s := sem.(count := sem.count + 1)],
         hist := c.hist[s := h.(holders := h.holders + multiset{c.running})])
    else
      AfterBlock(e, c, OnSemaphore, s, now).(sems := c.sems[s := sem.(waiting := sem.waiting + 1)],
                                           hist := c.hist[s := h.(arrived := h.arrived + [c.running])])
  }

  /** Semaphore s goes from the running process to the first waiter, or is set free. */
  ghost function AfterRelease(e: Env, c: Config, s: nat, now: nat): (c': Config)
    requires Proper(e, c) && s < |c.sems|
  {
    var sem, h, ws := c.sems[s], c.hist[s], Waiters(c.tags, s);
    if ws == [] then
      c.(sems := c.sems[s := sem.(count := sem.count - 1)],
         hist := c.hist[s := h.(holders := h.holders - multiset{c.running})])
    else if 0 <= ws[0] < |e.priority| then
      AfterUnblock(e, c, ws[0], now).(
        sems := c.sems[s := sem.(waiting := sem.waiting - 1)],
        hist := c.hist[s := History(h.holders - multiset{c.running} + multiset{ws[0]}, h.arrived, h.granted + [ws[0]])])
    else c
  }

  /** Process p is blocked for a reason other than a semaphore. */
  ghost predicate BlockedElse(tags: seq<Tag>, p: int) {
    exists k :: 0 <= k < |tags| && tags[k].process == p && tags[k].reason != OnSemaphore
  }

  /** Process p waits for a child to exit. */
  ghost predicate AwaitsChild(tags: seq<Tag>, p: int) {
    exists k :: 0 <= k < |tags| && tags[k].process == p && tags[k].reason == ChildExit
  }

  /** The place of the first process that is blocked for a reason on a channel, or the number of blocked processes. */
  ghost function FirstPlace(tags: seq<Tag>, why: Reason, on: int): (k: nat)
    ensures k <= |tags|
  {
    if tags == [] || (tags[0].reason == why && tags[0].channel == on) then 0 else 1 + FirstPlace(tags[1..], why, on)
  }

  lemma {:induction false} NothingFirst(tags: seq<Tag>, why: Reason, on: int, k: nat)
    requires k <= |tags| && (forall i :: 0 <= i < k ==> !(tags[i].reason == why && tags[i].channel == on))
    requires k < |tags| ==> tags[k].reason == why && tags[k].channel == on
    ensures FirstPlace(tags, why, on) == k
  {
    if k > 0 {
      NothingFirst(tags[1..], why, on, k - 1);
    }
  }

  lemma {:induction false} PickedFirst(tags: seq<Tag>, tags': seq<Tag>, why: Reason, on: int, k: nat)
    requires Picked(tags, tags', why, on, k)
    ensures FirstPlace(tags, why, on) == k
  {
    if k > 0 {
      NothingFirst(tags[1..], why, on, k - 1);
    }
  }

  /** The running process has a child among the running, ready and blocked processes. */
  ghost predicate RunsParent(e: Env, c: Config)
    requires Proper(e, c)
  {
    || e.parent[c.running] == c.running
    || exists l, i :: 0 <= l <= BLOCKED && 0 <= i < |c.items[l]| && 0 <= c.items[l][i] < |e.parent|
        && e.parent[c.items[l][i]] == c.running
  }

  /** The sleepers whose time is up. */
  ghost function DueAt(c: Config, now: nat): (ps: set<int>) {
    set k | 0 <= k < |c.tags| && c.tags[k].reason == Sleeping && 0 <= c.tags[k].process < |c.wakeUp| &&
            0 < c.wakeUp[c.tags[k].process] <= now :: c.tags[k].process
  }

  lemma DueTags(c: Config, items: seq<int>, reason: seq<Reason>, channel: seq<int>, now: nat)
    requires |reason| == |channel| == |c.wakeUp| && Slots(items, |reason|) && c.tags == Tagged(items, reason, channel)
    ensures DueAt(c, now) == set p | p in items && IsDue(p, now, reason, c.wakeUp)
  {
    forall p | p in items && IsDue(p, now, reason, c.wakeUp)
      ensures p in DueAt(c, now)
    {
      var k :| 0 <= k < |items| && items[k] == p;
      assert c.tags[k].process == p;
    }
  }

  /** The running process exits. */
  ghost function AfterExit(e: Env, c: Config, now: nat): (c': Config)
    requires Proper(e, c)
  {
    var par, items := e.parent[c.running], c.items[TERMINATED := c.items[TERMINATED] + [c.running]];
    if 0 <= par < |e.priority| && AwaitsChild(c.tags, par)
    then Moved(e, c, Freed(items, e.priority, par), true, false, now).(tags := Keep(c.tags, {par}))
    else Moved(e, c, items, true, false, now)
  }

  /** The timer ticks. */
  ghost function AfterTick(e: Env, c: Config, now: nat): (c': Config)
    requires Proper(e, c)
  {
    var due := DueAt(c, now);
    var slice := 0 < c.nextSwitch <= now;
    if 0 < c.nextWakeUp <= now && c.tags != [] then
      var items := Awake(c.items, e.priority, due);
      Moved(e, c, items, slice, true, now).(tags := Keep(c.tags, due), nextWakeUp := Earliest(items[BLOCKED], c.wakeUp))
    else Moved(e, c, c.items, slice, true, now)
  }

  /** Process p is started. */
  ghost function AfterStart(e: Env, c: Config, p: int, now: nat): (c': Config)
    requires Proper(e, c) && 0 <= p < |e.priority|
  {
    Moved(e, c, c.items[e.priority[p] := c.items[e.priority[p]] + [p]], e.priority[p] < e.priority[c.running], true,
          now)
  }

  /** A process that does not run and is in no list. */
  ghost predicate Unlisted(c: Config, p: int)
    requires |c.items| == LISTS
  {
    p != c.running && forall l :: 0 <= l < LISTS ==> p !in c.items[l]
  }

  /**
   * What a step does. The idle process never blocks, only holders release, processes that wait for a semaphore
   * are not unblocked from outside, and a process is started once.
   */
  ghost function Next(e: Env, a: Action, now: nat, c: Config): (c': Config) {
    if !Proper(e, c) then c
    else match a {
      case Create(limit) =>
        if 0 <= limit then c.(sems := c.sems + [Semaphore(0, limit, 0)], hist := c.hist + [History(multiset{}, [], [])])
            else c
      case Acquire(s) =>
        if s < |c.sems| && (c.sems[s].count < c.sems[s].limit || c.running != e.idle) then AfterAcquire(e, c, s, now)
            else c
      case Release(s) =>
        if s < |c.sems| && c.running in c.hist[s].holders then AfterRelease(e, c, s, now) else c
      case Block(why, on) =>
        if c.running != e.idle && why != OnSemaphore then AfterBlock(e, c, why, on, now) else c
      case Unblock(p) =>
        if 0 <= p < |e.priority| && BlockedElse(c.tags, p) then AfterUnblock(e, c, p, now) else c
      case UnblockThat(why, on) =>
        var k := FirstPlace(c.tags, why, on);
        if why != OnSemaphore && k < |c.tags| then AfterUnblock(e, c, c.tags[k].process, now) else c
      case Start(p) =>
        if 0 <= p < |e.priority| && Unlisted(c, p) && p !in c.ended then AfterStart(e, c, p, now) else c
      case Yield => Moved(e, c, c.items, true, true, now)
      case Sleep(milliseconds) =>
        if c.running != e.idle && milliseconds > 0
              then AfterBlock(e, c, Sleeping, NIL, now).(wakeUp := c.wakeUp[c.running := now + milliseconds],
                                                        nextWakeUp := Sooner(c.nextWakeUp, now + milliseconds))
              else c
      case WaitChild => if c.running != e.idle && RunsParent(e, c) then AfterBlock(e, c, ChildExit, NIL, now) else c
      case Exit =>
        if c.running != e.idle && NIL <= e.parent[c.running] < |e.parent| && e.parent[c.running] != c.running
              then AfterExit(e, c, now) else c
      case Tick => AfterTick(e, c, now)
      case CleanUp =>
        if c.running == e.idle then c.(items := c.items[TERMINATED := []], ended := c.ended +
                                       Elems(c.items[TERMINATED])) else c
    }
  }

  /** What the first n actions do. */
  ghost function AfterAll(e: Env, actions: seq<Action>, times: seq<nat>, c: Config, n: nat): (c': Config)
    requires n <= |actions| == |times|
  {
    if n == 0 then c else Next(e, actions[n - 1], times[n - 1], AfterAll(e, actions, times, c, n - 1))
  }

  class Semaphores {
    const m: Multitasking
    var sems: seq<Semaphore>
    ghost var hist: seq<History>

    ghost predicate Valid()
      reads this, m, m.lists
    {
      m.AtRest() && AllSound(m.Blockers(), sems, hist)
    }

    ghost function Fixed(): (e: Env) {
      Env(m.idle, m.priority, m.parent)
    }

    ghost function Now(): (c: Config)
      reads this, m, m.lists
    {
      Config(m.running, m.lists.items, m.Ended(), m.Blockers(), m.wakeUp, m.nextWakeUp, m.nextSwitch, sems, hist)
    }

    /** The queues are well formed. */
    lemma NowProper()
      requires Valid()
      ensures Proper(Fixed(), Now())
    {
      hide AllListed, Placed, IdleThere;
      m.RunningIs();
      m.ListIs(BLOCKED);
    }

    /** Who is blocked, by the state and the reason of a process and by the blocked list. */
    lemma BlockedBy(p: int)
      requires m.AtRest() && 0 <= p < m.count
      ensures BlockedElse(m.Blockers(), p) <==> m.state[p] == Blocked && m.reason[p] != OnSemaphore
      ensures AwaitsChild(m.Blockers(), p) <==> m.state[p] == Blocked && m.reason[p] == ChildExit
    {
      hide AllListed, Placed, IdleThere;
      m.ListIs(BLOCKED);
      var items := m.lists.items[BLOCKED];
      if m.state[p] == Blocked {
        m.BlockedIs(p);
        var k :| 0 <= k < |items| && items[k] == p;
        assert m.Blockers()[k] == Tag(p, m.reason[p], m.channel[p]);
      }
      forall k | 0 <= k < |items|
        ensures m.state[items[k]] == Blocked
      {
        m.StateOfBlocked(items[k]);
      }
    }

    /** A process has a child, by the state of all processes and by the lists. */
    lemma ParentBy()
      requires Valid()
      ensures Proper(Fixed(), Now()) && (RunsParent(Fixed(), Now()) <==> m.HasChild(m.running))
    {
      NowProper();
      if p :| p in m.Live() - {m.running} && 0 <= p < m.count && m.parent[p] == m.running && m.state[p] != Terminated {
        var l := m.lists.place[p];
        m.ListIs(l);
        m.ListIs(TEMP);
        var i :| 0 <= i < |m.lists.items[l]| && m.lists.items[l][i] == p;
        assert l <= BLOCKED;
      }
      if l, i :| 0 <= l <= BLOCKED && 0 <= i < |m.lists.items[l]| && m.parent[m.lists.items[l][i]] == m.running {
        m.ListIs(l);
        assert m.lists.items[l][i] in m.lists.place;
      }
    }

    /** Who is live, by the lists. */
    lemma NotListed(p: int)
      requires m.AtRest()
      ensures Unlisted(Now(), p) <==> p !in m.Live()
    {
      hide AllListed, IdleThere;
      forall l | 0 <= l < LISTS
        ensures p in m.lists.items[l] <==> p in m.lists.place && m.lists.place[p] == l
      {
        m.ListIs(l);
      }
      if p in m.lists.place {
        assert p in m.lists.items[m.lists.place[p]];
      }
    }

    /** The sleepers whose time is up, by the reasons of all processes and by the blocked list. */
    lemma DueBy(now: nat)
      requires m.AtRest()
      ensures DueAt(Now(), now) == m.AllDue(now) && (m.Blockers() == [] <==> m.lists.items[BLOCKED] == [])
    {
      hide AllListed, Placed, IdleThere, IsDue;
      m.ListIs(BLOCKED);
      DueTags(Now(), m.lists.items[BLOCKED], m.reason, m.channel, now);
    }

    constructor (m: Multitasking)
      requires m.AtRest() && m.Blockers() == []
      ensures Valid() && this.m == m && sems == [] && hist == []
    {
      this.m := m;
      sems, hist := [], [];
    }

    method CreateSemaphore(limit: int) returns (s: nat)
      requires Valid() && 0 <= limit
      modifies this
      ensures Valid() && s == |old(sems)| && sems == old(sems) + [Semaphore(0, limit, 0)]
      ensures hist == old(hist) + [History(multiset{}, [], [])]
    {
      hide Multitasking.AtRest, Waiters, Multitasking.Blockers;
      s := |sems|;
      NoWaiters(m.Blockers(), s);
      sems := sems + [Semaphore(0, limit, 0)];
      hist := hist + [History(multiset{}, [], [])];
    }

    lemma SoundIs(tags: seq<Tag>, sems: seq<Semaphore>, hist: seq<History>, s: nat)
      requires AllSound(tags, sems, hist) && s < |sems|
      ensures |hist| == |sems| && Known(tags, |sems|) && Sound(sems[s], hist[s], Waiters(tags, s))
    {
    }

    /** A step has begun: the scheduler is locked once, and nothing is pending. */
    ghost predicate Inside()
      reads this, m, m.lists
    {
      m.Steady() && m.depth == 1 && !m.pending && m.Runs() && AllSound(m.Blockers(), sems, hist)
    }

    lemma InsideProper()
      requires Inside()
      ensures Proper(Fixed(), Now())
    {
      hide AllListed, Placed, IdleThere;
      m.RunningIs();
      m.ListIs(BLOCKED);
    }

    method TakeAndUnlock(s: nat, now: nat)
      requires Inside() && s < |sems| && sems[s].count < sems[s].limit
      modifies this, m`state, m`running, m`depth, m`pending, m`nextSwitch, m.lists
      ensures Valid() && m.Live() == old(m.Live())
      ensures Proper(Fixed(), old(Now())) && Now() == AfterAcquire(Fixed(), old(Now()), s, now)
    {
      hide AllSound, Multitasking.Blockers, Multitasking.Valid, Dispatched, Proper;
      InsideProper();
      ghost var tags, p := m.Blockers(), m.running;
      SoundIs(tags, sems, hist, s);
      OneChanged(tags, tags, sems, hist, s, sems[s].(count := sems[s].count + 1),
                 hist[s].(holders := hist[s].holders + multiset{p}));
      sems := sems[s := sems[s].(count := sems[s].count + 1)];
      hist := hist[s := hist[s].(holders := hist[s].holders + multiset{p})];
      m.UnlockScheduler(now);
    }

    method WaitAndUnlock(s: nat, now: nat)
      requires Inside() && s < |sems| && sems[s].count >= sems[s].limit && m.running != m.idle
      modifies this, m`state, m`reason, m`channel, m`running, m`depth, m`pending, m`nextSwitch, m.lists
      ensures Valid() && m.Live() == old(m.Live())
      ensures Proper(Fixed(), old(Now())) && Now() == AfterAcquire(Fixed(), old(Now()), s, now)
    {
      hide AllSound, Multitasking.Blockers, Multitasking.Valid, Dispatched, Proper;
      InsideProper();
      ghost var tags, p := m.Blockers(), m.running;
      SoundIs(tags, sems, hist, s);
      Arrives(tags, p, sems, hist, s);
      sems := sems[s := sems[s].(waiting := sems[s].waiting + 1)];
      hist := hist[s := hist[s].(arrived := hist[s].arrived + [p])];
      m.RunningIs();
      m.ProcBlock(OnSemaphore, s, now);
      m.UnlockScheduler(now);
    }

    /** The running process takes the semaphore, or waits for it behind the others. */
    method AcquireSemaphore(s: nat, now: nat)
      requires Valid() && s < |sems| && (sems[s].count < sems[s].limit || m.running != m.idle)
      modifies this, m`state, m`reason, m`channel, m`running, m`depth, m`pending, m`nextSwitch, m.lists
      ensures Valid() && m.Live() == old(m.Live())
      ensures Proper(Fixed(), old(Now())) && Now() == AfterAcquire(Fixed(), old(Now()), s, now)
    {
      hide AllSound, Multitasking.Blockers, Multitasking.Valid, AfterAcquire, Proper;
      m.LockScheduler();
      if sems[s].count < sems[s].limit {
        TakeAndUnlock(s, now);
      } else {
        WaitAndUnlock(s, now);
      }
    }

    /** The blocked processes are all different. */
    lemma BlockersUnalike()
      requires m.Valid()
      ensures Unalike(m.Blockers())
    {
      hide AllListed, Placed, IdleThere;
      m.ListIs(BLOCKED);
    }

    /** Unblocks the first process that waits for the semaphore, and tells which. */
    method UnblockWaiter(s: nat, now: nat) returns (q: int)
      requires m.Steady() && m.depth > 0 && m.Runs()
      modifies m`state, m`reason, m`channel, m`running, m`depth, m`pending, m`nextSwitch, m.lists
      ensures m.Steady() && m.depth == old(m.depth) && m.Runs() && m.Live() == old(m.Live())
      ensures m.running == old(m.running)
      ensures m.Ended() == old(m.Ended())
      ensures var tags := old(m.Blockers());
              if Waiters(tags, s) == [] then q == NIL && m.Blockers() == tags
              else
                && q == Waiters(tags, s)[0] && 0 <= q < m.count && m.Blockers() == Keep(tags, {q})
                && exists k: nat :: FirstAt(tags, k, s)
      ensures if q == NIL then
                && m.lists.items == old(m.lists.items) && m.pending == old(m.pending)
                && m.nextSwitch == old(m.nextSwitch)
              else
                m.Settled(Freed(old(m.lists.items), m.priority, q), m.priority[m.running] > m.priority[q], true, now)
    {
      hide Multitasking.Blockers, Multitasking.Valid, Keep, Waiters;
      ghost var tags := m.Blockers();
      BlockersUnalike();
      m.RunningIs();
      ghost var k;
      q, k := m.FindBlocked(OnSemaphore, s);
      if q == NIL {
        NoWaiters(tags, s);
        return;
      }
      m.StateOfBlocked(q);
      FirstWaiterLeaves(tags, k, s);
      assert FirstAt(tags, k, s);
      m.UnblockProcess(q, now);
      m.RunningIs();
    }

    /** Counts the semaphore as handed to a process, or as free, by the blocked list from before. */
    method CountRelease(s: nat, to: int, ghost tags: seq<Tag>)
      requires AllSound(tags, sems, hist) && s < |sems| == |hist| && Unalike(tags)
      requires if Waiters(tags, s) == [] then to == NIL && m.Blockers() == tags
               else
                 && to == Waiters(tags, s)[0] && to != NIL && m.Blockers() == Keep(tags, {to})
                 && exists k: nat :: FirstAt(tags, k, s)
      modifies this
      ensures var sem, h, p := old(sems)[s], old(hist)[s], m.running;
              if to == NIL then
                && sems == old(sems)[s := sem.(count := sem.count - 1)]
                && hist == old(hist)[s := h.(holders := h.holders - multiset{p})]
              else
                && sems == old(sems)[s := sem.(waiting := sem.waiting - 1)]
                && hist == old(hist)[s := History(h.holders - multiset{p} + multiset{to}, h.arrived, h.granted + [to])]
      ensures AllSound(m.Blockers(), sems, hist) <==> m.running in old(hist)[s].holders
    {
      hide AllSound, Multitasking.Blockers, Keep, Waiters, Known, FirstAt;
      var p := m.running;
      if to != NIL {
        ghost var k: nat :| FirstAt(tags, k, s);
        HandedOver(tags, k, p, sems, hist, s);
        sems := sems[s := sems[s].(waiting := sems[s].waiting - 1)];
        hist := hist[s := History(hist[s].holders - multiset{p} + multiset{to}, hist[s].arrived, hist[s].granted +
                                  [to])];
      } else {
        SetFree(tags, p, sems, hist, s);
        sems := sems[s := sems[s].(count := sems[s].count - 1)];
        hist := hist[s := hist[s].(holders := hist[s].holders - multiset{p})];
      }
    }

    /**
     * The running process hands the semaphore to the first waiter, or frees it (to is then NIL). Whether it
     * holds the semaphore is not looked at: the semaphores stay sound exactly when it does.
     */
    method ReleaseSemaphore(s: nat, now: nat) returns (to: int)
      requires Valid() && s < |sems| && s < |hist|
      modifies this, m`state, m`reason, m`channel, m`running, m`depth, m`pending, m`nextSwitch, m.lists
      ensures m.AtRest() && m.Live() == old(m.Live())
      ensures Valid() <==> old(m.running in hist[s].holders)
      ensures Proper(Fixed(), old(Now())) && Now() == AfterRelease(Fixed(), old(Now()), s, now)
      ensures var ws := Waiters(old(m.Blockers()), s);
                if ws == [] then to == NIL else to == ws[0] && 0 <= to < |m.priority|
    {
      hide AllSound, Multitasking.Blockers, Multitasking.Valid, Keep, Waiters, Dispatched, Freed, FirstReady;
      hide Multitasking.Live, Multitasking.Ended;
      NowProper();
      ghost var tags := m.Blockers();
      SoundIs(tags, sems, hist, s);
      BlockersUnalike();
      m.RunningIs();
      m.LockScheduler();
      to := NIL;
      if sems[s].waiting > 0 {
        to := UnblockWaiter(s, now);
      }
      CountRelease(s, to, tags);
      m.UnlockScheduler(now);
    }

    /** Unblocking a process that does not wait for a semaphore keeps the semaphores. */
    lemma UnblockKeeps(p: int)
      requires Valid() && 0 <= p < m.count && m.reason[p] != OnSemaphore
      ensures AllSound(Keep(m.Blockers(), {p}), sems, hist)
    {
      hide AllSound, Keep, AllListed, Placed, IdleThere;
      m.ListIs(BLOCKED);
      OthersLeave(m.Blockers(), {p}, sems, hist);
    }

    lemma UnblockThatKeeps(why: Reason)
      requires Valid() && why != OnSemaphore
      ensures forall k :: 0 <= k < |m.Blockers()| && m.Blockers()[k].reason == why ==>
                AllSound(Keep(m.Blockers(), {m.Blockers()[k].process}), sems, hist)
    {
      hide AllSound, Keep, AllListed, Placed, IdleThere;
      m.ListIs(BLOCKED);
      forall k | 0 <= k < |m.Blockers()| && m.Blockers()[k].reason == why
        ensures AllSound(Keep(m.Blockers(), {m.Blockers()[k].process}), sems, hist)
      {
        UnblockKeeps(m.Blockers()[k].process);
      }
    }

    lemma WakingKeeps(now: nat)
      requires Valid()
      ensures AllSound(Keep(m.Blockers(), m.AllDue(now)), sems, hist)
    {
      hide AllSound, Keep, AllListed, Placed, IdleThere;
      m.ListIs(BLOCKED);
      OthersLeave(m.Blockers(), m.AllDue(now), sems, hist);
    }

    // The steps of the scheduler keep the semaphores.

    method Blocks(why: Reason, on: int, now: nat)
      requires Valid() && m.running != m.idle && why != OnSemaphore
      modifies m`state, m`reason, m`channel, m`wakeUp, m`nextWakeUp, m`running, m`depth, m`pending, m`nextSwitch
      modifies m.lists
      ensures Valid() && m.Live() == old(m.Live())
      ensures Proper(Fixed(), old(Now())) && Now() == AfterBlock(Fixed(), old(Now()), why, on, now)
    {
      hide AllSound, Multitasking.Blockers, Multitasking.Valid, Keep, Waiters, Multitasking.Due;
      NowProper();
      OtherBlocks(m.Blockers(), Tag(m.running, why, on), sems, hist);
      m.RunningIs();
      m.ProcBlock(why, on, now);
    }

    method Unblocks(p: int, now: nat)
      requires Valid() && 0 <= p < m.count && p != m.running && m.reason[p] != OnSemaphore
      modifies m`state, m`reason, m`channel, m`wakeUp, m`nextWakeUp, m`running, m`depth, m`pending, m`nextSwitch
      modifies m.lists
      ensures Valid() && m.Live() == old(m.Live())
      ensures Proper(Fixed(), old(Now()))
      ensures Now() == if BlockedElse(old(m.Blockers()), p) then AfterUnblock(Fixed(), old(Now()), p, now)
              else old(Now())
    {
      hide AllSound, Multitasking.Blockers, Multitasking.Valid, Keep, Waiters, Multitasking.Due;
      NowProper();
      BlockedBy(p);
      UnblockKeeps(p);
      m.RunningIs();
      m.UnblockProcess(p, now);
    }

    /** A process is unblocked from outside, whatever it waits for: right exactly when that is no semaphore. */
    method UnblocksAny(p: int, ghost k: nat, now: nat)
      requires Valid() && k < |m.Blockers()| && p == m.Blockers()[k].process
      modifies m`state, m`reason, m`channel, m`running, m`depth, m`pending, m`nextSwitch, m.lists
      ensures m.AtRest() && m.Blockers() == Keep(old(m.Blockers()), {p})
      ensures Valid() <==> old(m.Blockers())[k].reason != OnSemaphore
    {
      hide AllSound, Multitasking.Valid, Keep, Tagged;
      m.ListIs(BLOCKED);
      m.StateOfBlocked(p);
      m.RunningIs();
      BlockersUnalike();
      UnblockSafeIff(m.Blockers(), k, sems, hist);
      m.UnblockProcess(p, now);
    }

    method UnblocksThat(why: Reason, on: int, now: nat)
      requires Valid() && why != OnSemaphore
      modifies m`state, m`reason, m`channel, m`wakeUp, m`nextWakeUp, m`running, m`depth, m`pending, m`nextSwitch
      modifies m.lists
      ensures Valid() && m.Live() == old(m.Live())
      ensures Proper(Fixed(), old(Now()))
      ensures var k := FirstPlace(old(m.Blockers()), why, on);
              Now() == if k < |old(m.Blockers())|
                  then AfterUnblock(Fixed(), old(Now()), old(m.Blockers())[k].process, now) else old(Now())
    {
      hide AllSound, Multitasking.Blockers, Multitasking.Valid, Keep, Waiters, Multitasking.Due;
      NowProper();
      UnblockThatKeeps(why);
      m.RunningIs();
      ghost var tags := m.Blockers();
      ghost var k := m.UnblockProcessThat(why, on, now);
      PickedFirst(tags, m.Blockers(), why, on, k);
    }

    method Sleeps(milliseconds: int, now: nat)
      requires Valid() && m.running != m.idle
      modifies m`state, m`reason, m`channel, m`wakeUp, m`nextWakeUp, m`running, m`depth, m`pending, m`nextSwitch
      modifies m.lists
      ensures Valid() && m.Live() == old(m.Live())
      ensures Proper(Fixed(), old(Now())) && Now() == Next(Fixed(), Sleep(milliseconds), now, old(Now()))
    {
      hide AllSound, Multitasking.Blockers, Multitasking.Valid, Keep, Waiters, Multitasking.Due;
      NowProper();
      OtherBlocks(m.Blockers(), Tag(m.running, Sleeping, NIL), sems, hist);
      assert m.Blockers() + [] == m.Blockers();
      m.RunningIs();
      m.ProcSleep(milliseconds, now);
    }

    method WaitsForChild(now: nat)
      requires Valid() && m.running != m.idle
      modifies m`state, m`reason, m`channel, m`wakeUp, m`nextWakeUp, m`running, m`depth, m`pending, m`nextSwitch
      modifies m.lists
      ensures Valid() && m.Live() == old(m.Live())
      ensures Proper(Fixed(), old(Now())) && Now() == Next(Fixed(), WaitChild, now, old(Now()))
    {
      hide AllSound, Multitasking.Blockers, Multitasking.Valid, Keep, Waiters, Multitasking.Due;
      ParentBy();
      OtherBlocks(m.Blockers(), Tag(m.running, ChildExit, NIL), sems, hist);
      assert m.Blockers() + [] == m.Blockers();
      m.RunningIs();
      var st := m.ProcWaitChild(now);
    }

    method Exits(now: nat)
      requires Valid() && m.running != m.idle && m.ParentKnown(m.running)
      modifies m`state, m`reason, m`channel, m`wakeUp, m`nextWakeUp, m`running, m`depth, m`pending, m`nextSwitch
      modifies m.lists
      ensures Valid() && m.Live() == old(m.Live())
      ensures Proper(Fixed(), old(Now())) && Now() == AfterExit(Fixed(), old(Now()), now)
    {
      hide AllSound, Multitasking.Blockers, Multitasking.Valid, Keep, Waiters, Multitasking.Due;
      NowProper();
      m.RunningIs();
      ghost var par := m.parent[m.running];
      if par != NIL {
        BlockedBy(par);
      }
      if par != NIL && m.reason[par] == ChildExit {
        UnblockKeeps(par);
      }
      m.ProcExit(now);
    }

    method Ticks(now: nat)
      requires Valid()
      modifies m`state, m`reason, m`channel, m`wakeUp, m`nextWakeUp, m`running, m`depth, m`pending, m`nextSwitch
      modifies m.lists
      ensures Valid() && m.Live() == old(m.Live())
      ensures Proper(Fixed(), old(Now())) && Now() == AfterTick(Fixed(), old(Now()), now)
    {
      hide AllSound, Multitasking.Blockers, Multitasking.Valid, Keep, Waiters, Multitasking.Due;
      NowProper();
      DueBy(now);
      NothingToKeep(m.AllDue(now));
      WakingKeeps(now);
      m.TimerTicked(now);
    }

    method CleansUp() returns (gone: set<int>)
      requires Valid() && m.running == m.idle
      modifies m.lists
      ensures Valid() && m.Live() == old(m.Live()) - gone
      ensures Proper(Fixed(), old(Now())) && Now() == Next(Fixed(), CleanUp, 0, old(Now()))
    {
      hide AllSound, Multitasking.Blockers, Multitasking.Valid;
      NowProper();
      gone := m.CleanUpTerminated();
    }

    method Starts(p: int, now: nat)
      requires Valid() && 0 <= p < m.count && p !in m.Live() && m.state[p] == Ready
      modifies m`state, m`running, m`depth, m`pending, m`nextSwitch, m.lists
      ensures Valid() && m.Live() == old(m.Live()) + {p}
      ensures Proper(Fixed(), old(Now())) && Unlisted(old(Now()), p) && p !in old(m.Ended())
      ensures Now() == AfterStart(Fixed(), old(Now()), p, now)
    {
      hide AllSound, Multitasking.Blockers, Multitasking.Valid;
      NowProper();
      NotListed(p);
      m.RunningIs();
      m.StartProcess(p, now);
    }

    /** Who holds what, as the processes themselves know it. */
    ghost predicate Knows(held: seq<multiset<int>>, live: set<int>)
      reads this, m`running, m.lists
    {
      live == m.Live() && |held| == |hist| && forall s :: 0 <= s < |hist| ==> held[s] == hist[s].holders
    }

    lemma SameSize()
      requires Valid()
      ensures |sems| == |hist|
    {
    }

    method Creates(limit: int, now: nat, held: seq<multiset<int>>, ghost live: set<int>)
      returns (held': seq<multiset<int>>)
      requires Valid() && Knows(held, live)
      modifies this
      ensures Valid() && Knows(held', live) && Later(old(hist), hist)
      ensures Proper(Fixed(), old(Now())) && Now() == Next(Fixed(), Create(limit), now, old(Now()))
    {
      hide AllSound, Multitasking.Blockers, Multitasking.AtRest, Proper;
      NowProper();
      held' := held;
      if 0 <= limit {
        var s := CreateSemaphore(limit);
        held' := held + [multiset{}];
      }
    }

    method Acquires(s: nat, now: nat, held: seq<multiset<int>>, ghost live: set<int>)
      returns (held': seq<multiset<int>>)
      requires Valid() && Knows(held, live)
      modifies this, m`state, m`reason, m`channel, m`wakeUp, m`nextWakeUp, m`running, m`depth, m`pending, m`nextSwitch
      modifies m.lists
      ensures Valid() && Knows(held', live) && Later(old(hist), hist)
      ensures Proper(Fixed(), old(Now())) && Now() == Next(Fixed(), Acquire(s), now, old(Now()))
    {
      hide AllSound, Multitasking.Blockers, Multitasking.AtRest, AfterBlock, Proper, Later;
      NowProper();
      SameSize();
      LaterSelf(hist);
      held' := held;
      if s < |sems| && (sems[s].count < sems[s].limit || m.running != m.idle) {
        if sems[s].count < sems[s].limit {
          held' := held[s := held[s] + multiset{m.running}];
        }
        AcquireSemaphore(s, now);
        LaterAt(old(hist), s, hist[s]);
      }
    }

    /** Only a holder releases. */
    method Releases(s: nat, now: nat, held: seq<multiset<int>>, ghost live: set<int>)
      returns (held': seq<multiset<int>>)
      requires Valid() && Knows(held, live)
      modifies this, m`state, m`reason, m`channel, m`wakeUp, m`nextWakeUp, m`running, m`depth, m`pending, m`nextSwitch
      modifies m.lists
      ensures Valid() && Knows(held', live) && Later(old(hist), hist)
      ensures Proper(Fixed(), old(Now())) && Now() == Next(Fixed(), Release(s), now, old(Now()))
    {
      hide AllSound, Multitasking.Blockers, Multitasking.AtRest;
      hide Waiters, AfterUnblock, Proper, Multitasking.Live, Later;
      NowProper();
      SameSize();
      LaterSelf(hist);
      held' := held;
      if s < |sems| && m.running in held[s] {
        var p := m.running;
        var to := ReleaseSemaphore(s, now);
        LaterAt(old(hist), s, hist[s]);
        held' := held[s := if to == NIL then held[s] - multiset{p} else held[s] - multiset{p} + multiset{to}];
      }
    }

    /** A step that uses a semaphore, if it is allowed. */
    method Use(a: Action, now: nat, held: seq<multiset<int>>, ghost live: set<int>) returns (held': seq<multiset<int>>)
      requires Valid() && Knows(held, live) && (a.Create? || a.Acquire? || a.Release?)
      modifies this, m`state, m`reason, m`channel, m`wakeUp, m`nextWakeUp, m`running, m`depth, m`pending, m`nextSwitch
      modifies m.lists
      ensures Valid() && Knows(held', live) && Later(old(hist), hist)
      ensures Proper(Fixed(), old(Now())) && Now() == Next(Fixed(), a, now, old(Now()))
    {
      hide Semaphores.Valid, Knows, Later, Proper, Next;
      match a {
        case Create(limit) => held' := Creates(limit, now, held, live);
        case Acquire(s) => held' := Acquires(s, now, held, live);
        case Release(s) => held' := Releases(s, now, held, live);
      }
    }

    /** A step of the scheduler, if it is allowed: the idle process never blocks. */
    method Move(a: Action, now: nat)
      requires Valid() && !a.Create? && !a.Acquire? && !a.Release? && !a.Start? && !a.CleanUp?
      modifies m`state, m`reason, m`channel, m`wakeUp, m`nextWakeUp, m`running, m`depth, m`pending, m`nextSwitch
      modifies m.lists
      ensures Valid() && m.Live() == old(m.Live())
      ensures Proper(Fixed(), old(Now())) && Now() == Next(Fixed(), a, now, old(Now()))
    {
      hide AllSound, Multitasking.Blockers, Multitasking.Valid, Waiters, Keep;
      NowProper();
      m.RunningIs();
      match a {
        case Block(why, on) =>
          if m.running != m.idle && why != OnSemaphore {
            Blocks(why, on, now);
          }
        case Unblock(p) =>
          if 0 <= p < m.count {
            BlockedBy(p);
            if p != m.running && m.reason[p] != OnSemaphore {
              Unblocks(p, now);
            }
          }
        case UnblockThat(why, on) =>
          if why != OnSemaphore {
            UnblocksThat(why, on, now);
          }
        case Yield =>
          m.ProcYield(now);
        case Sleep(milliseconds) =>
          if m.running != m.idle {
            Sleeps(milliseconds, now);
          }
        case WaitChild =>
          if m.running != m.idle {
            WaitsForChild(now);
          }
        case Exit =>
          if m.running != m.idle && m.ParentKnown(m.running) {
            Exits(now);
          }
        case Tick =>
          Ticks(now);
      }
    }

    /** Any step that is allowed. */
    method Perform(a: Action, now: nat, held: seq<multiset<int>>, live: set<int>)
      returns (held': seq<multiset<int>>, live': set<int>)
      requires Valid() && Knows(held, live)
      modifies this, m`state, m`reason, m`channel, m`wakeUp, m`nextWakeUp, m`running, m`depth, m`pending, m`nextSwitch
      modifies m.lists
      ensures Valid() && Knows(held', live') && Later(old(hist), hist)
      ensures Proper(Fixed(), old(Now())) && Now() == Next(Fixed(), a, now, old(Now()))
    {
      hide AllSound, Multitasking.Blockers, Multitasking.Valid, Waiters, Keep;
      NowProper();
      held', live' := held, live;
      if a.Create? || a.Acquire? || a.Release? {
        held' := Use(a, now, held, live);
      } else if a.Start? {
        m.RunningIs();
        NotListed(a.p);
        if 0 <= a.p < m.count && a.p !in live && m.state[a.p] == Ready {
          Starts(a.p, now);
          live' := live + {a.p};
        }
      } else if a.CleanUp? {
        if m.running == m.idle {
          var gone := CleansUp();
          live' := live - gone;
        }
      } else {
        Move(a, now);
      }
    }

    lemma InOrder(held: seq<multiset<int>>, live: set<int>)
      requires Valid() && Knows(held, live)
      ensures |held| == |hist| == |sems|
      ensures forall s :: 0 <= s < |sems| ==>
                |held[s]| == sems[s].count <= sems[s].limit && hist[s].granted <= hist[s].arrived
    {
      hide Multitasking.AtRest, Waiters, Multitasking.Blockers;
      forall s | 0 <= s < |sems|
        ensures |held[s]| == sems[s].count <= sems[s].limit && hist[s].granted <= hist[s].arrived
      {
        SoundIs(m.Blockers(), sems, hist, s);
      }
    }

    /**
     * Every interleaving: the linked lists, locks and counters go through the steps of the queues, all semaphores
     * stay sound, and they are handed over in the order of arrival.
     */
    method Run(actions: seq<Action>, times: seq<nat>, held: seq<multiset<int>>, live: set<int>)
      returns (held': seq<multiset<int>>, live': set<int>)
      requires Valid() && Knows(held, live) && |times| == |actions|
      modifies this, m`state, m`reason, m`channel, m`wakeUp, m`nextWakeUp, m`running, m`depth, m`pending, m`nextSwitch
      modifies m.lists
      ensures Valid() && Knows(held', live') && Later(old(hist), hist)
      ensures Now() == AfterAll(Fixed(), actions, times, old(Now()), |actions|)
      ensures |held'| == |hist| == |sems|
      ensures forall s :: 0 <= s < |sems| ==>
                |held'[s]| == sems[s].count <= sems[s].limit && hist[s].granted <= hist[s].arrived
    {
      hide Semaphores.Valid, Semaphores.Knows, Later, Proper, Next;
      held', live' := held, live;
      LaterSelf(hist);
      for i := 0 to |actions|
        invariant Valid() && Knows(held', live') && Later(old(hist), hist)
        invariant Now() == AfterAll(Fixed(), actions, times, old(Now()), i)
      {
        ghost var before := hist;
        held', live' := Perform(actions[i], times[i], held', live');
        LaterTwice(old(hist), before, hist);
      }
      InOrder(held', live');
    }
  }
}
