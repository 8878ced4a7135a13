/** The blocked list as a queue of tagged processes, and who waits for which semaphore. */
module Blocking {
  import opened Recency
  import opened SlotLists

  datatype Reason = NoReason | Sleeping | OnSemaphore | UserInput | ChildExit

  /** A blocked process, with the reason and the channel it is blocked on. */
  datatype Tag = Tag(process: int, reason: Reason, channel: int)

  ghost function Tagged(items: seq<int>, reason: seq<Reason>, channel: seq<int>): (tags: seq<Tag>)
    requires |reason| == |channel| && Slots(items, |reason|)
    ensures |tags| == |items|
    ensures forall i :: 0 <= i < |items| ==> tags[i] == Tag(items[i], reason[items[i]], channel[items[i]])
  {
    if items == [] then []
    else [Tag(items[0], reason[items[0]], channel[items[0]])] + Tagged(items[1..], reason, channel)
  }

  /** The tags of the processes that are not in gone. */
  ghost function Keep(tags: seq<Tag>, gone: set<int>): (r: seq<Tag>) {
    if tags == [] then [] else (if tags[0].process in gone then [] else [tags[0]]) + Keep(tags[1..], gone)
  }

  /** The processes that wait for a semaphore, in the order they blocked. */
  ghost function Waiters(tags: seq<Tag>, s: int): (ps: seq<int>) {
    if tags == [] then []
    else
      var first := if tags[0].reason == OnSemaphore && tags[0].channel == s then [tags[0].process] else [];
      first + Waiters(tags[1..], s)
  }

  lemma {:induction false} KeepConcat(a: seq<Tag>, b: seq<Tag>, gone: set<int>)
    ensures Keep(a + b, gone) == Keep(a, gone) + Keep(b, gone)
  {
    if a == [] {
      assert a + b == b;
    } else {
      assert (a + b)[1..] == a[1..] + b;
      KeepConcat(a[1..], b, gone);
    }
  }

  lemma {:induction false} WaitersConcat(a: seq<Tag>, b: seq<Tag>, s: int)
    ensures Waiters(a + b, s) == Waiters(a, s) + Waiters(b, s)
  {
    if a == [] {
      assert a + b == b;
    } else {
      assert (a + b)[1..] == a[1..] + b;
      WaitersConcat(a[1..], b, s);
    }
  }

  /** One more process blocks. */
  lemma WaitersAppend(tags: seq<Tag>, t: Tag, s: int)
    ensures Waiters(tags + [t], s) == Waiters(tags, s) +
              if t.reason == OnSemaphore && t.channel == s then [t.process] else []
  {
    WaitersConcat(tags, [t], s);
  }

  /** Processes that do not wait for the semaphore leave: its waiters stay, in order. */
  lemma {:induction false} WaitersKept(tags: seq<Tag>, gone: set<int>, s: int)
    requires forall i :: 0 <= i < |tags| && tags[i].process in gone ==>
               tags[i].reason != OnSemaphore || tags[i].channel != s
    ensures Waiters(Keep(tags, gone), s) == Waiters(tags, s)
  {
    if tags != [] {
      WaitersKept(tags[1..], gone, s);
      var first := if tags[0].process in gone then [] else [tags[0]];
      WaitersConcat(first, Keep(tags[1..], gone), s);
    }
  }

  ghost predicate Unalike(tags: seq<Tag>) {
    forall i, j :: 0 <= i < j < |tags| ==> tags[i].process != tags[j].process
  }

  lemma OneTag(t: Tag, s: int)
    ensures Keep([t], {t.process}) == []
    ensures Waiters([t], s) == if t.reason == OnSemaphore && t.channel == s then [t.process] else []
  {
  }

  lemma {:induction false} KeepAll(tags: seq<Tag>, gone: set<int>)
    requires forall i :: 0 <= i < |tags| ==> tags[i].process !in gone
    ensures Keep(tags, gone) == tags
  {
    if tags != [] {
      KeepAll(tags[1..], gone);
    }
  }

  lemma {:induction false} NoWaiters(tags: seq<Tag>, s: int)
    requires forall i :: 0 <= i < |tags| ==> tags[i].reason != OnSemaphore || tags[i].channel != s
    ensures Waiters(tags, s) == []
  {
    if tags != [] {
      NoWaiters(tags[1..], s);
    }
  }

  /** When the first waiter leaves, the others stay, in order. */
  lemma FirstWaiterLeaves(tags: seq<Tag>, k: nat, s: int)
    requires k < |tags| && tags[k].reason == OnSemaphore && tags[k].channel == s && Unalike(tags)
    requires forall i :: 0 <= i < k ==> tags[i].reason != OnSemaphore || tags[i].channel != s
    ensures Waiters(tags, s) == [tags[k].process] + Waiters(Keep(tags, {tags[k].process}), s)
    ensures forall r :: r != s ==> Waiters(Keep(tags, {tags[k].process}), r) == Waiters(tags, r)
  {
    hide Keep, Waiters;
    var t, p := tags[k], tags[k].process;
    var a, b := tags[..k], tags[k + 1..];
    assert tags == a + [t] + b;
    KeepConcat(a + [t], b, {p});
    KeepConcat(a, [t], {p});
    KeepAll(a, {p});
    KeepAll(b, {p});
    OneTag(t, s);
    WaitersConcat(a + [t], b, s);
    WaitersConcat(a, [t], s);
    WaitersConcat(a, b, s);
    NoWaiters(a, s);
    assert Keep(tags, {p}) == a + b;
    assert Waiters(tags, s) == [p] + Waiters(b, s) && Waiters(a + b, s) == Waiters(b, s);
    forall r | r != s
      ensures Waiters(Keep(tags, {p}), r) == Waiters(tags, r)
    {
      WaitersKept(tags, {p}, r);
    }
  }

  /** Tags depend on the listed processes only. */
  lemma TaggedSame(items: seq<int>, reason: seq<Reason>, channel: seq<int>, reason': seq<Reason>, channel': seq<int>)
    requires |reason| == |channel| == |reason'| == |channel'| && Slots(items, |reason|)
    requires forall i :: 0 <= i < |items| ==>
               reason'[items[i]] == reason[items[i]] && channel'[items[i]] == channel[items[i]]
    ensures Tagged(items, reason', channel') == Tagged(items, reason, channel)
  {
  }

  lemma TaggedAppend(items: seq<int>, p: int, reason: seq<Reason>, channel: seq<int>)
    requires |reason| == |channel| && Slots(items, |reason|) && 0 <= p < |reason|
    ensures Slots(items + [p], |reason|)
    ensures Tagged(items + [p], reason, channel) == Tagged(items, reason, channel) + [Tag(p, reason[p], channel[p])]
  {
    assert Slots(items + [p], |reason|);
  }

  lemma {:induction false} TaggedWithout(items: seq<int>, p: int, reason: seq<Reason>, channel: seq<int>)
    requires |reason| == |channel| && Slots(items, |reason|)
    ensures Slots(Without(items, p), |reason|)
    ensures Tagged(Without(items, p), reason, channel) == Keep(Tagged(items, reason, channel), {p})
  {
    if items != [] {
      var q, rest := items[0], items[1..];
      TaggedWithout(rest, p, reason, channel);
      assert items == [q] + rest;
      if q != p {
        assert Without(items, p)[1..] == Without(rest, p);
      }
    }
  }
}
