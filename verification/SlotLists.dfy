/**
 * The two lists threaded through the slots of the cache: the LRU list and the hash chains.
 * A pointer to a slot is its index.
 */
module SlotLists {
  import opened Common
  import opened Recency

  ghost function At(s: seq<int>, i: int): (r: int) {
    if 0 <= i < |s| then s[i] else NIL
  }

  ghost predicate Slots(s: seq<int>, n: nat) {
    forall i :: 0 <= i < |s| ==> 0 <= s[i] < n
  }

  /** The doubly linked list runs over exactly the slots of lru, newest first. */
  ghost predicate Linked(older: seq<int>, newer: seq<int>, newest: int, oldest: int, lru: seq<int>) {
    && |older| == |newer|
    && Distinct(lru)
    && Slots(lru, |older|)
    && newest == At(lru, 0)
    && oldest == At(lru, |lru| - 1)
    && (forall i {:trigger older[lru[i]]} :: 0 <= i < |lru| ==> older[lru[i]] == At(lru, i + 1))
    && (forall i {:trigger newer[lru[i]]} :: 0 <= i < |lru| ==> newer[lru[i]] == At(lru, i - 1))
  }

  /** The singly linked list from head runs over exactly the slots of chain. */
  ghost predicate Chained(next: seq<int>, head: int, chain: seq<int>) {
    && Distinct(chain)
    && Slots(chain, |next|)
    && head == At(chain, 0)
    && (forall i {:trigger next[chain[i]]} :: 0 <= i < |chain| ==> next[chain[i]] == At(chain, i + 1))
  }

  /** Closing the gap around position k of the LRU list. */
  lemma GapClosed(older: seq<int>, newer: seq<int>, older': seq<int>, newer': seq<int>,
                  newest: int, oldest: int, lru: seq<int>, k: nat)
    requires Linked(older, newer, newest, oldest, lru) && 0 < k < |lru|
    requires older' == older[lru[k - 1] := At(lru, k + 1)]
    requires newer' == if k + 1 < |lru| then newer[lru[k + 1] := lru[k - 1]] else newer
    ensures Linked(older', newer', newest, if k == |lru| - 1 then lru[k - 1] else oldest, lru[..k] + lru[k + 1..])
  {
    var r := lru[..k] + lru[k + 1..];
    forall i | 0 <= i < |r|
      ensures older'[r[i]] == At(r, i + 1) && newer'[r[i]] == At(r, i - 1)
    {
      var o := if i < k then i else i + 1;
      assert r[i] == lru[o];
      assert older[lru[o]] == At(lru, o + 1) && newer[lru[o]] == At(lru, o - 1);
    }
  }

  class LruList {
    var older: seq<int>
    var newer: seq<int>
    var newest: int
    var oldest: int
    ghost var list: seq<int> // the listed slots, newest first

    ghost predicate Valid()
      reads this
    {
      Linked(older, newer, newest, oldest, list)
    }

    constructor (slots: nat)
      ensures Valid() && |older| == slots && list == []
    {
      older, newer := seq(slots, _ => NIL), seq(slots, _ => NIL);
      newest, oldest := NIL, NIL;
      list := [];
    }

    /** Takes a slot other than the newest off the LRU list. */
    method Unlink(slot: int)
      requires Valid() && slot in list && slot != newest
      modifies this
      ensures Valid() && |older| == old(|older|) && newest == old(newest)
      ensures list == Without(old(list), slot)
    {
      ghost var k :| 0 <= k < |list| && list[k] == slot;
      WithoutAt(list, k);
      assert older[list[k]] == At(list, k + 1) && newer[list[k]] == At(list, k - 1);
      GapClosed(older, newer, older[newer[slot] := older[slot]],
                if older[slot] != NIL then newer[older[slot] := newer[slot]] else newer, newest, oldest, list, k);
      if slot == oldest {
        oldest := newer[slot];
      }
      if newer[slot] != NIL {
        older := older[newer[slot] := older[slot]];
      }
      if older[slot] != NIL {
        newer := newer[older[slot] := newer[slot]];
      }
      list := list[..k] + list[k + 1..];
    }

    /** Puts an unlisted slot at the newest end of the LRU list. */
    method PushNewest(slot: int)
      requires Valid() && 0 <= slot < |older| && slot !in list
      modifies this
      ensures Valid() && |older| == old(|older|)
      ensures list == [slot] + old(list)
    {
      if newest == NIL {
        newest, oldest := slot, slot;
        newer, older := newer[slot := NIL], older[slot := NIL];
      } else {
        newer := newer[newest := slot];
        older := older[slot := newest];
        newer := newer[slot := NIL];
        newest := slot;
      }
      list := [slot] + list;
    }

    /** Moves a listed slot to the newest end of the LRU list. */
    method Promote(slot: int)
      requires Valid() && slot in list
      modifies this
      ensures Valid() && |older| == old(|older|)
      ensures list == [slot] + Without(old(list), slot)
    {
      if slot == newest {
        WithoutAt(list, 0);
        return;
      }
      Unlink(slot);
      PushNewest(slot);
    }

    /** Takes the oldest slot off the LRU list. */
    method UnlinkOldest()
      requires Valid() && list != []
      modifies this
      ensures Valid() && |older| == old(|older|)
      ensures list == old(list)[..|old(list)| - 1]
    {
      ghost var n := |list| - 1;
      assert newer[list[n]] == At(list, n - 1);
      if newest == oldest {
        newest, oldest := NIL, NIL;
      } else {
        var second := newer[oldest];
        older := older[second := NIL];
        oldest := second;
      }
      list := list[..n];
    }
  }

  /** A chain holds exactly the slots of on with hash key h. */
  ghost predicate Holds(chain: seq<int>, on: set<int>, keys: seq<int>, h: int) {
    forall s :: s in chain <==> s in on && 0 <= s < |keys| && keys[s] == h
  }

  /** The chains partition the slots of on by hash key. */
  ghost predicate Hashed(next: seq<int>, table: seq<int>, chains: seq<seq<int>>, on: set<int>, keys: seq<int>) {
    && |table| == |chains| == |keys| == |next|
    && (forall h :: 0 <= h < |chains| ==> Chained(next, table[h], chains[h]))
    && (forall h :: 0 <= h < |chains| ==> Holds(chains[h], on, keys, h))
  }

  /** Cutting position k out of chain h. */
  lemma ChainCut(next: seq<int>, head: int, chain: seq<int>, k: nat)
    requires Chained(next, head, chain) && k < |chain|
    ensures Chained(if k > 0 then next[chain[k - 1] := At(chain, k + 1)] else next,
                    if k == 0 then At(chain, 1) else head, chain[..k] + chain[k + 1..])
  {
    var next' := if k > 0 then next[chain[k - 1] := At(chain, k + 1)] else next;
    var r := chain[..k] + chain[k + 1..];
    forall i | 0 <= i < |r|
      ensures next'[r[i]] == At(r, i + 1)
    {
      var o := if i < k then i else i + 1;
      assert r[i] == chain[o];
      assert next[chain[o]] == At(chain, o + 1);
    }
  }

  lemma Unhashed(next: seq<int>, table: seq<int>, chains: seq<seq<int>>, on: set<int>, keys: seq<int>, h: nat, k: nat)
    requires Hashed(next, table, chains, on, keys)
    requires h < |chains| && k < |chains[h]|
    ensures Slots(chains[h], |next|)
    ensures Hashed(if k > 0 then next[chains[h][k - 1] := At(chains[h], k + 1)] else next,
                   if k == 0 then table[h := At(chains[h], 1)] else table,
                   chains[h := chains[h][..k] + chains[h][k + 1..]], on - {chains[h][k]}, keys)
  {
    var chain := chains[h];
    var next' := if k > 0 then next[chain[k - 1] := At(chain, k + 1)] else next;
    var r := chain[..k] + chain[k + 1..];
    assert Chained(next, table[h], chain) && Holds(chain, on, keys, h);
    assert forall s :: s in r <==> s in chain && s != chain[k] by {
      WithoutAt(chain, k);
    }
    assert chain[k] in chain;
    ChainCut(next, table[h], chain, k);
    forall g | 0 <= g < |chains| && g != h
      ensures Chained(next', table[g], chains[g]) && Holds(chains[g], on - {chain[k]}, keys, g)
    {
      assert Chained(next, table[g], chains[g]) && Holds(chains[g], on, keys, g);
      assert k > 0 ==> chain[k - 1] in chain;
    }
  }

  /** The place of a slot on its chain. */
  lemma PlaceOf(next: seq<int>, table: seq<int>, chains: seq<seq<int>>, on: set<int>, keys: seq<int>, slot: int)
    returns (k: nat)
    requires Hashed(next, table, chains, on, keys) && slot in on && 0 <= slot < |keys| && 0 <= keys[slot] < |keys|
    ensures var h := keys[slot];
            && h < |chains| == |table| && k < |chains[h]| && chains[h][k] == slot && Chained(next, table[h], chains[h])
  {
    var h := keys[slot];
    assert Holds(chains[h], on, keys, h);
    k :| 0 <= k < |chains[h]| && chains[h][k] == slot;
  }

  /** Putting slot x in front of chain h. */
  lemma Rehashed(next: seq<int>, table: seq<int>, chains: seq<seq<int>>, on: set<int>, keys: seq<int>, x: int, h: int)
    requires Hashed(next, table, chains, on, keys) && 0 <= x < |next| && x !in on && keys[x] == h
    requires 0 <= h < |chains|
    ensures Hashed(next[x := table[h]], table[h := x], chains[h := [x] + chains[h]], on + {x}, keys)
  {
    var next', chain := next[x := table[h]], [x] + chains[h];
    assert Holds(chains[h], on, keys, h) && Chained(next, table[h], chains[h]);
    forall i | 0 <= i < |chain|
      ensures next'[chain[i]] == At(chain, i + 1)
    {
      if i > 0 {
        assert chain[i] == chains[h][i - 1];
        assert next[chains[h][i - 1]] == At(chains[h], i);
      }
    }
    forall g | 0 <= g < |chains| && g != h
      ensures Chained(next', table[g], chains[g]) && Holds(chains[g], on + {x}, keys, g)
    {
      assert Chained(next, table[g], chains[g]) && Holds(chains[g], on, keys, g);
      assert x !in chains[g];
    }
  }

  /** A slot that is on no list can be given any block. */
  lemma Rekeyed(next: seq<int>, table: seq<int>, chains: seq<seq<int>>, on: set<int>, keys: seq<int>, keys': seq<int>)
    requires Hashed(next, table, chains, on, keys) && |keys'| == |keys|
    requires forall s :: s in on && 0 <= s < |keys| ==> keys'[s] == keys[s]
    ensures Hashed(next, table, chains, on, keys')
  {
    forall h | 0 <= h < |chains|
      ensures Holds(chains[h], on, keys', h)
    {
      assert Holds(chains[h], on, keys, h);
    }
  }

  /** The hash key of the block in each slot. */
  ghost function Keys(blockNo: seq<nat>): (keys: seq<int>)
    ensures |keys| == |blockNo|
    ensures forall i :: 0 <= i < |keys| ==> keys[i] == blockNo[i] % |blockNo|
  {
    seq(|blockNo|, i requires 0 <= i < |blockNo| => blockNo[i] % |blockNo|)
  }

  /** index maps each hashed block to the one slot of on that holds it. */
  ghost predicate Indexed(blockNo: seq<nat>, on: set<int>, index: map<nat, int>) {
    && (forall s :: s in on ==> 0 <= s < |blockNo| && blockNo[s] in index && index[blockNo[s]] == s)
    && (forall b :: b in index ==> index[b] in on && blockNo[index[b]] == b)
  }

  lemma Unindexed(blockNo: seq<nat>, on: set<int>, index: map<nat, int>, slot: int)
    requires Indexed(blockNo, on, index) && slot in on
    ensures 0 <= slot < |blockNo| && Indexed(blockNo, on - {slot}, index - {blockNo[slot]})
  {
  }

  class HashTable {
    var blockNo: seq<nat>
    var next: seq<int>
    var table: seq<int>
    ghost var chains: seq<seq<int>> // the slots on each chain
    ghost var on: set<int>          // the slots on any chain
    ghost var index: map<nat, int>  // the slot of each hashed block

    ghost predicate Valid()
      reads this
    {
      && 0 < |blockNo|
      && Hashed(next, table, chains, on, Keys(blockNo))
      && Indexed(blockNo, on, index)
    }

    constructor (slots: nat)
      requires 0 < slots
      ensures Valid() && |blockNo| == slots && on == {} && index == map[]
    {
      blockNo := seq(slots, _ => 0);
      next, table := seq(slots, _ => NIL), seq(slots, _ => NIL);
      chains, on, index := seq(slots, _ => []), {}, map[];
    }

    /** The slot of a block, or none. */
    method Find(no: nat) returns (slot: int)
      requires Valid()
      ensures slot == if no in index then index[no] else NIL
    {
      var h := no % |blockNo|;
      ghost var chain := chains[h];
      assert Chained(next, table[h], chain) && Holds(chain, on, Keys(blockNo), h);
      assert no in index ==> index[no] in chain;
      slot := table[h];
      ghost var k := 0;
      while slot != NIL
        invariant 0 <= k <= |chain| && slot == At(chain, k)
        invariant forall j :: 0 <= j < k ==> blockNo[chain[j]] != no
        decreases |chain| - k
      {
        assert chain[k] in chain;
        if blockNo[slot] == no {
          return slot;
        }
        slot := next[slot];
        k := k + 1;
      }
    }

    /** Relinks the chain of hash key h around a slot, which is at place k of it. */
    method CutChain(h: nat, slot: int, ghost chain: seq<int>, ghost k: nat)
      requires h < |table| && Chained(next, table[h], chain) && k < |chain| && chain[k] == slot
      modifies `next, `table
      ensures next == if k > 0 then old(next)[chain[k - 1] := At(chain, k + 1)] else old(next)
      ensures table == if k == 0 then old(table)[h := At(chain, 1)] else old(table)
    {
      assert next[chain[k]] == At(chain, k + 1);
      if table[h] == slot {
        table := table[h := next[slot]];
        return;
      }
      var prev := table[h];
      ghost var j := 0;
      while prev != NIL
        invariant 0 <= j < k && prev == chain[j] && next == old(next) && table == old(table)
        decreases k - j
      {
        assert next[chain[j]] == At(chain, j + 1);
        if next[prev] == slot {
          next := next[prev := next[slot]];
          return;
        }
        prev := next[prev];
        j := j + 1;
      }
    }

    /** Takes a slot off its chain. */
    method Remove(slot: int)
      requires Valid() && slot in on
      modifies this
      ensures Valid() && blockNo == old(blockNo)
      ensures on == old(on) - {slot} && index == old(index) - {blockNo[slot]}
    {
      hide Chained, Hashed, Indexed;
      Unindexed(blockNo, on, index, slot);
      var h := blockNo[slot] % |blockNo|;
      ghost var k := PlaceOf(next, table, chains, on, Keys(blockNo), slot);
      Unhashed(next, table, chains, on, Keys(blockNo), h, k);
      CutChain(h, slot, chains[h], k);
      chains := chains[h := chains[h][..k] + chains[h][k + 1..]];
      index := index - {blockNo[slot]};
      on := on - {slot};
    }

    /** Gives a slot that is on no chain a new block and puts it on the chain of that block. */
    method Insert(slot: int, no: nat)
      requires Valid() && 0 <= slot < |blockNo| && slot !in on && no !in index
      modifies this
      ensures Valid() && blockNo == old(blockNo)[slot := no]
      ensures on == old(on) + {slot} && index == old(index)[no := slot]
    {
      ghost var keys := Keys(blockNo);
      blockNo := blockNo[slot := no];
      Rekeyed(next, table, chains, on, keys, Keys(blockNo));
      var h := no % |blockNo|;
      Rehashed(next, table, chains, on, Keys(blockNo), slot, h);
      next := next[slot := table[h]];
      table := table[h := slot];
      chains := chains[h := [slot] + chains[h]];
      on := on + {slot};
      index := index[no := slot];
    }
  }
}
