/** The queues of processes: singly linked lists with a head and a tail, all threaded through one link per process. */
module ProcLists {
  import opened Common
  import opened Recency
  import opened SlotLists

  ghost predicate Listed(next: seq<int>, head: int, tail: int, items: seq<int>) {
    Chained(next, head, items) && tail == At(items, |items| - 1)
  }

  /** Each listed process is in one list only. */
  ghost predicate OnePlace(items: seq<seq<int>>, place: map<int, nat>) {
    && (forall p :: p in place ==> place[p] < |items|)
    && (forall l: nat, p :: l < |items| ==> (p in items[l] <==> p in place && place[p] == l))
  }

  ghost predicate AllListed(next: seq<int>, heads: seq<int>, tails: seq<int>, items: seq<seq<int>>,
                            place: map<int, nat>) {
    && |heads| == |tails| == |items|
    && (forall l :: 0 <= l < |items| ==> Listed(next, heads[l], tails[l], items[l]))
    && OnePlace(items, place)
  }

  /** A list does not notice changes to the links of others. */
  lemma ListedFrame(next: seq<int>, next': seq<int>, head: int, tail: int, items: seq<int>)
    requires Listed(next, head, tail, items) && |next'| == |next|
    requires forall p :: p in items && 0 <= p < |next| ==> next'[p] == next[p]
    ensures Listed(next', head, tail, items)
  {
    forall i | 0 <= i < |items|
      ensures next'[items[i]] == At(items, i + 1)
    {
      assert next[items[i]] == At(items, i + 1);
    }
  }

  lemma Appended(next: seq<int>, head: int, tail: int, items: seq<int>, p: int)
    requires Listed(next, head, tail, items) && 0 <= p < |next| && p !in items
    ensures items == [] ==> Listed(next[p := NIL], p, p, [p])
    ensures items != [] ==> 0 <= tail < |next| && tail in items
    ensures items != [] ==> Listed(next[tail := p][p := NIL], head, p, items + [p])
  {
    if items != [] {
      var next', r := next[tail := p][p := NIL], items + [p];
      forall i | 0 <= i < |r|
        ensures next'[r[i]] == At(r, i + 1)
      {
        if i < |items| {
          assert next[items[i]] == At(items, i + 1);
          assert i < |items| - 1 ==> items[i] != tail;
        }
      }
    }
  }

  /**
   * Appending a process to a list that has it already cuts off what comes after it, and nothing only if it is the last
   * one.
   */
  lemma AppendedAgain(next: seq<int>, head: int, tail: int, items: seq<int>, k: nat)
    requires Listed(next, head, tail, items) && k < |items|
    ensures 0 <= tail < |next| && 0 <= items[k] < |next| && head != NIL
    ensures Listed(next[tail := items[k]][items[k] := NIL], head, items[k], items[..k + 1])
    ensures items[..k + 1] == items <==> k == |items| - 1
  {
    var p := items[k];
    var next', r := next[tail := p][p := NIL], items[..k + 1];
    assert next[items[0]] == At(items, 1);
    forall i | 0 <= i < |r|
      ensures next'[r[i]] == At(r, i + 1)
    {
      assert next[items[i]] == At(items, i + 1);
      assert i < k ==> items[i] != p && items[i] != tail;
    }
    assert k < |items| - 1 ==> |r| < |items|;
  }

  lemma Prepended(next: seq<int>, head: int, tail: int, items: seq<int>, p: int)
    requires Listed(next, head, tail, items) && 0 <= p < |next| && p !in items && items != []
    ensures Listed(next[p := head], p, tail, [p] + items)
  {
    var next', r := next[p := head], [p] + items;
    forall i | 0 <= i < |r|
      ensures next'[r[i]] == At(r, i + 1)
    {
      if i > 0 {
        assert r[i] == items[i - 1];
        assert next[items[i - 1]] == At(items, i);
      }
    }
  }

  /** Taking position k out, and clearing the link of what was there. */
  lemma CutOut(next: seq<int>, head: int, tail: int, items: seq<int>, k: nat)
    requires Listed(next, head, tail, items) && k < |items|
    ensures var next' := (if k > 0 then next[items[k - 1] := next[items[k]]] else next)[items[k] := NIL];
            var tail' := if k == |items| - 1 then At(items, k - 1) else tail;
            Listed(next', if k == 0 then next[items[0]] else head, tail', items[..k] + items[k + 1..])
  {
    ChainCut(next, head, items, k);
    assert next[items[k]] == At(items, k + 1);
    var cut := if k > 0 then next[items[k - 1] := At(items, k + 1)] else next;
    var r := items[..k] + items[k + 1..];
    var tail' := if k == |items| - 1 then At(items, k - 1) else tail;
    assert tail' == At(r, |r| - 1);
    assert items[k] !in r;
    ListedFrame(cut, cut[items[k] := NIL], if k == 0 then next[items[0]] else head, tail', r);
  }

  /** The places after one list gains or loses a process. */
  lemma PlaceAdded(items: seq<seq<int>>, place: map<int, nat>, l: nat, p: int, r: seq<int>)
    requires OnePlace(items, place) && l < |items| && p !in place
    requires r == items[l] + [p] || r == [p] + items[l]
    ensures OnePlace(items[l := r], place[p := l])
  {
  }

  lemma PlaceRemoved(items: seq<seq<int>>, place: map<int, nat>, l: nat, k: nat)
    requires OnePlace(items, place) && l < |items| && k < |items[l]| && Distinct(items[l])
    ensures OnePlace(items[l := items[l][..k] + items[l][k + 1..]], place - {items[l][k]})
  {
    hide Without, Distinct;
    var s := items[l];
    var items', place' := items[l := s[..k] + s[k + 1..]], place - {s[k]};
    assert s[k] in s;
    WithoutAt(s, k);
    forall m: nat, p | m < |items'|
      ensures p in items'[m] <==> p in place' && place'[p] == m
    {
      assert p in items[m] <==> p in place && place[p] == m;
    }
  }

  /** The lists after list l alone has changed. */
  lemma ListChanged(next: seq<int>, heads: seq<int>, tails: seq<int>, items: seq<seq<int>>, place: map<int, nat>,
                    next': seq<int>, l: nat, head: int, tail: int, r: seq<int>, place': map<int, nat>)
    requires AllListed(next, heads, tails, items, place) && l < |items| && |next'| == |next|
    requires Listed(next', head, tail, r) && OnePlace(items[l := r], place')
    requires forall p :: 0 <= p < |next| && p in place && place[p] != l ==> next'[p] == next[p]
    ensures AllListed(next', heads[l := head], tails[l := tail], items[l := r], place')
  {
    forall m | 0 <= m < |items| && m != l
      ensures Listed(next', heads[m], tails[m], items[m])
    {
      ListedFrame(next, next', heads[m], tails[m], items[m]);
    }
  }

  lemma ListedDistinct(next: seq<int>, head: int, tail: int, items: seq<int>)
    requires Listed(next, head, tail, items)
    ensures Distinct(items)
  {
  }

  lemma LinkAt(next: seq<int>, head: int, tail: int, items: seq<int>, k: nat)
    requires Listed(next, head, tail, items) && k < |items|
    ensures 0 <= items[k] < |next| && next[items[k]] == At(items, k + 1)
    ensures k + 1 < |items| ==> 0 <= items[k + 1] < |next|
    ensures tail == items[k] <==> k == |items| - 1
  {
    assert next[items[k]] == At(items, k + 1);
  }

  lemma InList(items: seq<seq<int>>, place: map<int, nat>, l: nat, p: int)
    requires OnePlace(items, place) && l < |items|
    ensures p in items[l] <==> p in place && place[p] == l
  {
  }

  /** The lists after position k of list l is taken out. */
  lemma TakenOut(next: seq<int>, heads: seq<int>, tails: seq<int>, items: seq<seq<int>>, place: map<int, nat>, l: nat,
                 k: nat)
    requires AllListed(next, heads, tails, items, place) && l < |items| && k < |items[l]| && Slots(items[l], |next|)
    ensures var s := items[l];
            var next' := (if k > 0 then next[s[k - 1] := next[s[k]]] else next)[s[k] := NIL];
            var heads' := if k == 0 then heads[l := next[s[0]]] else heads;
            var tails' := if k == |s| - 1 then tails[l := At(s, k - 1)] else tails;
            AllListed(next', heads', tails', items[l := Without(s, s[k])], place - {s[k]})
    ensures items[l][k] in place && place[items[l][k]] == l
    ensures next[items[l][k]] == At(items[l], k + 1)
  {
    hide OnePlace, Listed, Without;
    var s := items[l];
    ListedDistinct(next, heads[l], tails[l], s);
    LinkAt(next, heads[l], tails[l], s, k);
    CutOut(next, heads[l], tails[l], s, k);
    PlaceRemoved(items, place, l, k);
    WithoutAt(s, k);
    InList(items, place, l, s[k]);
    if k > 0 {
      InList(items, place, l, s[k - 1]);
    }
    var next' := (if k > 0 then next[s[k - 1] := next[s[k]]] else next)[s[k] := NIL];
    var head := if k == 0 then next[s[0]] else heads[l];
    var tail := if k == |s| - 1 then At(s, k - 1) else tails[l];
    ListChanged(next, heads, tails, items, place, next', l, head, tail, Without(s, s[k]), place - {s[k]});
    assert k > 0 ==> heads[l := head] == heads;
    assert k < |s| - 1 ==> tails[l := tail] == tails;
  }

  lemma WithoutFirst(s: seq<int>)
    requires Distinct(s) && s != []
    ensures Without(s, s[0]) == s[1..]
  {
    WithoutAt(s, 0);
    assert s[..0] + s[1..] == s[1..];
  }

  lemma NotThere(items: seq<seq<int>>, place: map<int, nat>, l: nat, p: int)
    requires OnePlace(items, place) && l < |items| && p !in place
    ensures p !in items[l]
  {
  }

  lemma HeadIs(next: seq<int>, head: int, tail: int, items: seq<int>)
    requires Listed(next, head, tail, items)
    ensures head == NIL <==> items == []
    ensures items != [] ==> head == items[0] && 0 <= head < |next| && next[head] == At(items, 1) && head in items
    ensures items != [] ==> tail == items[|items| - 1] && 0 <= tail < |next| && tail in items
  {
    if items != [] {
      assert next[items[0]] == At(items, 1);
    }
  }

  class Lists {
    var next: seq<int> // the link of each process
    var heads: seq<int>
    var tails: seq<int>
    ghost var items: seq<seq<int>>
    ghost var place: map<int, nat> // the list of each listed process

    ghost predicate Valid()
      reads this
    {
      AllListed(next, heads, tails, items, place)
    }

    constructor (processes: nat, lists: nat)
      ensures Valid() && |next| == processes && |items| == lists && place == map[]
      ensures forall l :: 0 <= l < lists ==> items[l] == []
    {
      next := seq(processes, _ => NIL);
      heads, tails := seq(lists, _ => NIL), seq(lists, _ => NIL);
      items := seq(lists, _ => []);
      place := map[];
    }

    method Append(l: nat, p: int)
      requires Valid() && l < |items| && 0 <= p < |next| && p !in place
      modifies this
      ensures Valid() && |next| == |old(next)|
      ensures items == old(items)[l := old(items)[l] + [p]] && place == old(place)[p := l]
    {
      hide Listed, OnePlace;
      NotThere(items, place, l, p);
      Appended(next, heads[l], tails[l], items[l], p);
      PlaceAdded(items, place, l, p, items[l] + [p]);
      HeadIs(next, heads[l], tails[l], items[l]);
      if heads[l] == NIL {
        heads := heads[l := p];
        tails := tails[l := p];
        next := next[p := NIL];
        assert items[l] + [p] == [p];
      } else {
        next := next[tails[l] := p];
        tails := tails[l := p];
        next := next[p := NIL];
        assert old(heads)[l := old(heads)[l]] == heads;
        InList(items, place, l, old(tails)[l]);
      }
      ListChanged(old(next), old(heads), old(tails), old(items), old(place), next, l, heads[l], tails[l], items[l] +
                  [p], place[p := l]);
      items := items[l := items[l] + [p]];
      place := place[p := l];
    }

    method Prepend(l: nat, p: int)
      requires Valid() && l < |items| && 0 <= p < |next| && p !in place
      modifies this
      ensures Valid() && |next| == |old(next)|
      ensures items == old(items)[l := [p] + old(items)[l]] && place == old(place)[p := l]
    {
      hide Listed, OnePlace;
      NotThere(items, place, l, p);
      Appended(next, heads[l], tails[l], items[l], p);
      PlaceAdded(items, place, l, p, [p] + items[l]);
      HeadIs(next, heads[l], tails[l], items[l]);
      if heads[l] == NIL {
        heads := heads[l := p];
        tails := tails[l := p];
        next := next[p := NIL];
        assert [p] + items[l] == [p];
      } else {
        Prepended(next, heads[l], tails[l], items[l], p);
        next := next[p := heads[l]];
        heads := heads[l := p];
        assert old(tails)[l := old(tails)[l]] == tails;
      }
      ListChanged(old(next), old(heads), old(tails), old(items), old(place), next, l, heads[l], tails[l], [p] +
                  items[l], place[p := l]);
      items := items[l := [p] + items[l]];
      place := place[p := l];
    }

    /** What is known of list l. */
    lemma ListFacts(l: nat)
      requires Valid() && l < |items|
      ensures |heads| == |tails| == |items| && Slots(items[l], |next|) && Distinct(items[l])
      ensures heads[l] == At(items[l], 0) && tails[l] == At(items[l], |items[l]| - 1)
      ensures forall k :: 0 <= k < |items[l]| ==> next[items[l][k]] == At(items[l], k + 1)
    {
      assert Listed(next, heads[l], tails[l], items[l]);
    }

    method Dequeue(l: nat) returns (p: int)
      requires Valid() && l < |items|
      modifies this
      ensures Valid() && |next| == |old(next)|
      ensures old(items)[l] == [] ==> p == NIL && items == old(items) && place == old(place)
      ensures old(items)[l] != [] ==>
                && p == old(items)[l][0] && 0 <= p < |next| && p in old(place) && old(place)[p] == l
                && items == old(items)[l := old(items)[l][1..]] && place == old(place) - {p}
    {
      hide AllListed, Without;
      ListFacts(l);
      if heads[l] == NIL {
        return NIL;
      }
      ghost var s := items[l];
      TakenOut(next, heads, tails, items, place, l, 0);
      WithoutFirst(s);
      p := heads[l];
      heads := heads[l := next[p]];
      if heads[l] == NIL {
        tails := tails[l := NIL];
      }
      next := next[p := NIL];
      items := items[l := s[1..]];
      place := place - {p};
    }

    /** Moves a whole list to an empty one. */
    method MoveAll(from: nat, to: nat)
      requires Valid() && from < |items| && to < |items| && from != to && items[to] == []
      modifies this
      ensures Valid() && next == old(next)
      ensures items == old(items)[to := old(items)[from]][from := []]
      ensures place.Keys == old(place).Keys
      ensures forall p :: p in place ==> place[p] == if old(place)[p] == from then to else old(place)[p]
    {
      heads := heads[to := heads[from]];
      tails := tails[to := tails[from]];
      heads := heads[from := NIL];
      tails := tails[from := NIL];
      items := items[to := items[from]][from := []];
      place := map p | p in place :: if place[p] == from then to else place[p];
    }

    lemma HeadAt(l: nat)
      requires Valid() && l < |items|
      ensures |heads| == |items| && heads[l] == At(items[l], 0) && (heads[l] == NIL <==> items[l] == [])
    {
      HeadIs(next, heads[l], tails[l], items[l]);
    }

    lemma NextAt(l: nat, i: nat)
      requires Valid() && l < |items| && i <= |items[l]|
      ensures i < |items[l]| ==> 0 <= items[l][i] < |next| && next[items[l][i]] == At(items[l], i + 1)
    {
      assert Listed(next, heads[l], tails[l], items[l]);
    }

    /** The process before p in list l, if there is one. */
    method FindTrailing(l: nat, p: int) returns (trailing: int, ghost i: nat)
      requires Valid() && l < |items| && 0 <= p < |next| && At(items[l], 0) != p
      ensures i <= |items[l]| && trailing == At(items[l], i)
      ensures if p in items[l] then i + 1 < |items[l]| && items[l][i + 1] == p && trailing != NIL else trailing == NIL
    {
      hide AllListed;
      HeadAt(l);
      NextAt(l, 0);
      ghost var s := items[l];
      trailing, i := heads[l], 0;
      while trailing != NIL && next[trailing] != p
        invariant i <= |s| && trailing == At(s, i)
        invariant i < |s| ==> 0 <= s[i] < |next| && next[s[i]] == At(s, i + 1)
        invariant forall j :: 0 <= j <= i && j < |s| ==> s[j] != p
        decreases |s| - i
      {
        trailing := next[trailing];
        i := i + 1;
        NextAt(l, i);
      }
    }

    /** The places of the processes of list l. */
    lemma PlacesOf(l: nat)
      requires Valid() && l < |items|
      ensures forall p :: p in items[l] <==> p in place && place[p] == l
    {
      hide Listed;
    }

    /** Takes a process out of a list, if it is there. */
    method Unlist(l: nat, p: int)
      requires Valid() && l < |items| && 0 <= p < |next|
      modifies this
      ensures Valid() && |next| == |old(next)|
      ensures items == old(items)[l := Without(old(items)[l], p)]
      ensures place == if p in old(items)[l] then old(place) - {p} else old(place)
    {
      hide AllListed, Without;
      ListFacts(l);
      ghost var s := items[l];
      if heads[l] == p {
        WithoutFirst(s);
        var q := Dequeue(l);
        return;
      }
      var trailing;
      ghost var i;
      trailing, i := FindTrailing(l, p);
      if trailing == NIL {
        assert items[l := items[l]] == items;
        return;
      }
      TakenOut(next, heads, tails, items, place, l, i + 1);
      next := next[trailing := next[p]];
      if tails[l] == p {
        tails := tails[l := trailing];
      }
      next := next[p := NIL];
      items := items[l := Without(s, p)];
      place := place - {p};
    }
  }
}
