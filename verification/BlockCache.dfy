/** The write-back block cache over the raw block store. */
module BlockCaches {
  import opened Common
  import opened SectorDevices
  import opened Recency
  import opened RawBlocks
  import opened SlotLists

  datatype Op = Read | Write | Wipe

  ghost function Marked(used: seq<bool>): set<int> {
    set i | 0 <= i < |used| && used[i]
  }

  lemma {:induction false} MarkedBound(used: seq<bool>)
    ensures |Marked(used)| <= |used|
    ensures |Marked(used)| < |used| ==> exists i :: 0 <= i < |used| && !used[i]
  {
    if used != [] {
      var n := |used| - 1;
      MarkedBound(used[..n]);
      assert Marked(used) == Marked(used[..n]) + if used[n] then {n} else {};
    }
  }

  /** The block numbers on the LRU list, newest first. */
  ghost function Blocks(blockNo: seq<nat>, list: seq<int>): (r: seq<nat>)
    requires Slots(list, |blockNo|)
    ensures |r| == |list|
    ensures forall i :: 0 <= i < |list| ==> r[i] == blockNo[list[i]]
  {
    seq(|list|, i requires 0 <= i < |list| => blockNo[list[i]])
  }

  /** Cached blocks hold the view; every block that is not dirty in a slot is on the device. */
  ghost predicate Mirrors(data: seq<Block>, dirty: seq<bool>, index: map<nat, int>, view: seq<Block>,
                          disk: seq<Block>) {
    && |data| == |dirty| && |view| == |disk|
    && (forall b :: b in index ==> b < |view| && 0 <= index[b] < |data| && data[index[b]] == view[b])
    && (forall b :: 0 <= b < |view| && (b in index ==> !dirty[index[b]]) ==> disk[b] == view[b])
  }

  /** A block that is not dirty can leave the cache. */
  lemma DropMirror(data: seq<Block>, dirty: seq<bool>, index: map<nat, int>, view: seq<Block>, disk: seq<Block>, b: nat)
    requires Mirrors(data, dirty, index, view, disk) && b in index && !dirty[index[b]]
    ensures Mirrors(data, dirty, index - {b}, view, disk)
  {
  }

  lemma ElemsDrop(list: seq<int>, n: nat)
    requires Distinct(list) && n == |list| - 1
    ensures list[n] in Elems(list) && Elems(list[..n]) == Elems(list) - {list[n]}
  {
    assert list == list[..n] + [list[n]];
  }

  /** The LRU list is a prefix of the recency order of the accesses. */
  ghost predicate Recent(blockNo: seq<nat>, list: seq<int>, history: seq<nat>) {
    Slots(list, |blockNo|) && Blocks(blockNo, list) <= Mru(history)
  }

  lemma RecentDrop(blockNo: seq<nat>, list: seq<int>, history: seq<nat>, n: nat)
    requires Recent(blockNo, list, history) && n <= |list|
    ensures Recent(blockNo, list[..n], history)
  {
    assert Blocks(blockNo, list[..n]) == Blocks(blockNo, list)[..n];
  }

  /** Slot x, which was on no list, is given block b and put in front. */
  lemma RecentAdd(blockNo: seq<nat>, list: seq<int>, history: seq<nat>, x: int, b: nat)
    requires Recent(blockNo, list, history) && 0 <= x < |blockNo| && x !in list
    requires forall i :: 0 <= i < |list| ==> blockNo[list[i]] != b
    ensures Recent(blockNo[x := b], [x] + list, history + [b])
    ensures |list| == |Mru(history)| ==> |list| + 1 == |Mru(history + [b])|
  {
    var p := Blocks(blockNo, list);
    assert Blocks(blockNo[x := b], [x] + list) == [b] + p;
    MruAccess(history, b);
    Pushed(p, Mru(history), b);
  }

  lemma BlocksMove(blockNo: seq<nat>, list: seq<int>, k: nat)
    requires Slots(list, |blockNo|) && k < |list| && Distinct(list) && Distinct(Blocks(blockNo, list))
    ensures |Without(list, list[k])| == |list| - 1
    ensures Slots([list[k]] + Without(list, list[k]), |blockNo|)
    ensures Blocks(blockNo, [list[k]] + Without(list, list[k])) ==
              [blockNo[list[k]]] + Without(Blocks(blockNo, list), blockNo[list[k]])
  {
    hide Without, Distinct;
    WithoutAt(list, k);
    WithoutAt(Blocks(blockNo, list), k);
  }

  /** The slot at position k moves to the front. */
  lemma RecentMove(blockNo: seq<nat>, list: seq<int>, history: seq<nat>, k: nat)
    requires Recent(blockNo, list, history) && k < |list| && Distinct(list) && Distinct(Blocks(blockNo, list))
    ensures Recent(blockNo, [list[k]] + Without(list, list[k]), history + [blockNo[list[k]]])
    ensures |Without(list, list[k])| == |list| - 1
    ensures Elems([list[k]] + Without(list, list[k])) == Elems(list)
    ensures |Mru(history + [blockNo[list[k]]])| == |Mru(history)|
  {
    var p, b, m := Blocks(blockNo, list), blockNo[list[k]], Mru(history);
    BlocksMove(blockNo, list, k);
    assert p[k] == m[k];
    hide Slots, Distinct, Without;
    MruAccess(history, b);
    WithoutPrefix(p, m, b);
    MruDistinct(history);
    WithoutOnce(m, b);
  }

  lemma BlocksDistinct(blockNo: seq<nat>, list: seq<int>, index: map<nat, int>)
    requires Slots(list, |blockNo|) && Indexed(blockNo, Elems(list), index) && Distinct(list)
    ensures Distinct(Blocks(blockNo, list))
  {
    var p := Blocks(blockNo, list);
    forall i, j | 0 <= i < j < |p|
      ensures p[i] != p[j]
    {
      assert list[i] in Elems(list) && list[j] in Elems(list);
    }
  }

  lemma RecentPromote(blockNo: seq<nat>, list: seq<int>, index: map<nat, int>, history: seq<nat>, x: int)
    requires Recent(blockNo, list, history) && x in list && Distinct(list) && Indexed(blockNo, Elems(list), index)
    ensures 0 <= x < |blockNo|
    ensures Recent(blockNo, [x] + Without(list, x), history + [blockNo[x]])
    ensures |Without(list, x)| == |list| - 1
    ensures Elems([x] + Without(list, x)) == Elems(list)
    ensures |Mru(history + [blockNo[x]])| == |Mru(history)|
  {
    var k :| 0 <= k < |list| && list[k] == x;
    BlocksDistinct(blockNo, list, index);
    RecentMove(blockNo, list, history, k);
  }

  /** The cached blocks that are to be saved. */
  ghost function DirtyBlocks(index: map<nat, int>, dirty: seq<bool>): (r: set<nat>) {
    set b | b in index && 0 <= index[b] < |dirty| && dirty[index[b]]
  }

  lemma CleanSlot(index: map<nat, int>, dirty: seq<bool>, blockNo: seq<nat>, on: set<int>, slot: int)
    requires Indexed(blockNo, on, index) && 0 <= slot < |dirty| == |blockNo|
    ensures DirtyBlocks(index, dirty[slot := false]) ==
              DirtyBlocks(index, dirty) - if slot in on then {blockNo[slot]} else {}
  {
  }

  /** What an operation makes of a plain array of blocks. */
  function Updated(view: seq<Block>, op: Op, no: nat, offset: nat, buffer: Block): (r: seq<Block>)
    requires no < |view| && (op == Write ==> offset + |buffer| <= |view[no]|)
    ensures |r| == |view|
  {
    match op
    case Read => view
    case Write => view[no := Splice(view[no], offset, buffer)]
    case Wipe => view[no := Zeros(|view[no]|)]
  }

  lemma CachedBlocks(blockNo: seq<nat>, list: seq<int>, index: map<nat, int>)
    requires Slots(list, |blockNo|) && Indexed(blockNo, Elems(list), index)
    ensures forall b :: b in index <==> b in Blocks(blockNo, list)
  {
    var p := Blocks(blockNo, list);
    forall b | b in index
      ensures b in p
    {
      assert index[b] in Elems(list);
      var i :| 0 <= i < |list| && list[i] == index[b];
      assert p[i] == b;
    }
    forall b | b in p
      ensures b in index
    {
      var i :| 0 <= i < |p| && p[i] == b;
      assert list[i] in Elems(list);
    }
  }

  class BlockCache {
    const raw: RawStore
    const slots: nat
    const lru: LruList
    const hash: HashTable
    var data: seq<Block>
    var used: seq<bool>
    var dirty: seq<bool>
    var entriesUsed: int

    ghost var view: seq<Block>   // the plain array of blocks the cache stands for
    ghost var history: seq<nat>  // the blocks accessed so far, oldest access first

    /** The lists are well formed and agree with each other and with the counter. */
    ghost predicate Structure()
      reads `data, `used, `dirty, `entriesUsed, lru, hash
    {
      && 0 < slots == |data| == |used| == |dirty| == |lru.older| == |hash.blockNo|
      && lru.Valid() && hash.Valid()
      && hash.on == Elems(lru.list)
      && hash.on <= Marked(used)
      && entriesUsed == |Marked(used)|
    }

    ghost predicate Faithful()
      reads `data, `dirty, `view, raw`disk, hash
    {
      && Sized(data, raw.blockSize) && Sized(view, raw.blockSize)
      && Marked(dirty) <= hash.on
      && Mirrors(data, dirty, hash.index, view, raw.disk)
    }

    ghost predicate Valid()
      reads this, raw, raw.device, lru, hash
    {
      && raw.Valid()
      && Structure()
      && Faithful()
      && Recent(hash.blockNo, lru.list, history)
    }

    /** Slots taken out of service: marked used, but on no list. */
    ghost function Lost(): int
      reads `entriesUsed, lru
    {
      entriesUsed - |lru.list|
    }

    /** Unless every slot is taken, nothing has been evicted. */
    ghost predicate Resident()
      reads `entriesUsed, `history, lru
    {
      entriesUsed == slots || |lru.list| == |Mru(history)|
    }

    /** All slots are in service. In-range operations keep it so. */
    ghost predicate Healthy()
      reads this, raw, raw.device, lru, hash
    {
      Valid() && Resident() && Lost() == 0
    }

    constructor (device: SectorDevice, blockSize: nat, slots: nat)
      requires device.Valid() && 0 < slots
      requires 0 < blockSize && blockSize % device.sectorSize == 0
      ensures |view| == device.sectorCount / (blockSize / device.sectorSize) && Healthy()
      ensures raw.device == device && raw.blockSize == blockSize && this.slots == slots
      ensures history == [] && view == raw.disk
      ensures fresh(raw) && fresh(lru) && fresh(hash)
    {
      raw := new RawStore(device, blockSize);
      lru := new LruList(slots);
      hash := new HashTable(slots);
      this.slots := slots;
      data, used, dirty := seq(slots, _ => Zeros(blockSize)), seq(slots, _ => false), seq(slots, _ => false);
      entriesUsed := 0;
      new;
      view, history := raw.disk, [];
      assert Marked(used) == {} && Marked(dirty) == {};
    }

    /** The block that eviction picks. */
    ghost function Victim(): (b: nat)
      reads lru, hash
    {
      if 0 <= lru.oldest < |hash.blockNo| then hash.blockNo[lru.oldest] else 0
    }

    ghost function Dirty(): (bs: set<nat>)
      reads `dirty, hash
    {
      DirtyBlocks(hash.index, dirty)
    }

    /** What goes for a block: nothing, unless there is no slot for it. */
    ghost function Evicted(no: nat): (bs: set<nat>)
      reads this, lru, hash
    {
      if no in hash.index || entriesUsed < slots then {} else {Victim()}
    }

    twostate predicate DeviceKept()
      reads raw, raw.device
    {
      raw.disk == old(raw.disk) && raw.device.sectors == old(raw.device.sectors)
    }

    /** The device has block b as the cache has it, and is otherwise as before. */
    twostate predicate Saved(b: nat)
      reads `view, raw, raw.device
    {
      && b < |old(view)| == |old(raw.disk)|
      && raw.disk == old(raw.disk)[b := old(view)[b]] && raw.OnlyBlock(b)
    }

    /** What fetching a block does to the device: nothing, unless there is no slot for it and another block must go. */
    twostate predicate Spilled(no: nat)
      reads this, raw, raw.device, lru, hash
    {
      if old(no in hash.index || entriesUsed < slots) then DeviceKept() else Saved(old(Victim()))
    }

    lemma CachedInRange(slot: int)
      requires Valid() && slot in hash.on
      ensures 0 <= slot < slots && hash.blockNo[slot] < |view| == |raw.disk|
      ensures hash.blockNo[slot] * raw.perBlock + raw.perBlock <= U32
      ensures view[hash.blockNo[slot]] == data[slot] && (!dirty[slot] ==> raw.disk[hash.blockNo[slot]] == data[slot])
    {
      InRangeMeans(hash.blockNo[slot], raw.perBlock, raw.device.sectorCount);
    }

    /** Saves a dirty slot, so that the device agrees with it. */
    method WriteBack(slot: int) returns (st: Status)
      requires Valid() && 0 <= slot < slots
      modifies `dirty, raw, raw.device
      ensures Valid() && st == Ok
      ensures dirty == old(dirty)[slot := false]
      ensures slot in hash.on ==> Saved(hash.blockNo[slot])
    {
      hide Recent;
      if slot in hash.on {
        CachedInRange(slot);
      }
      if dirty[slot] {
        assert slot in Marked(dirty);
        st := raw.SaveBlockRaw(hash.blockNo[slot], data[slot]);
        if st != Ok {
          return;
        }
        dirty := dirty[slot := false];
        assert Marked(dirty) == Marked(old(dirty)) - {slot};
      }
      st := Ok;
    }

    lemma DropsFromLists(slot: int)
      requires Valid() && lru.list != [] && slot == lru.oldest
      ensures slot == lru.list[|lru.list| - 1] && slot in hash.on && 0 <= slot < slots
      ensures hash.blockNo[slot] in hash.index && hash.index[hash.blockNo[slot]] == slot
      ensures Elems(lru.list[..|lru.list| - 1]) == Elems(lru.list) - {slot}
      ensures Recent(hash.blockNo, lru.list[..|lru.list| - 1], history)
      ensures !dirty[slot] ==> Mirrors(data, dirty, hash.index - {hash.blockNo[slot]}, view, raw.disk)
    {
      RecentDrop(hash.blockNo, lru.list, history, |lru.list| - 1);
      ElemsDrop(lru.list, |lru.list| - 1);
      if !dirty[slot] {
        DropMirror(data, dirty, hash.index, view, raw.disk, hash.blockNo[slot]);
      }
    }

    /** Takes the oldest slot, which is clean, off both lists. */
    method DropOldest(slot: int)
      requires Valid() && lru.list != [] && slot == lru.oldest && 0 <= slot < slots && !dirty[slot]
      modifies `used, `entriesUsed, lru, hash
      ensures Valid() && lru.list == old(lru.list)[..|old(lru.list)| - 1]
      ensures used == old(used)[slot := false] && entriesUsed == old(entriesUsed) - 1
      ensures hash.index == old(hash.index) - {old(hash.blockNo)[slot]}
    {
      hide RawStore.Valid, HashTable.Valid, LruList.Valid, Recent, Mirrors, Sized, Elems;
      DropsFromLists(slot);
      lru.UnlinkOldest();
      hash.Remove(slot);
      entriesUsed := entriesUsed - 1;
      assert Marked(used[slot := false]) == Marked(used) - {slot};
      used := used[slot := false];
    }

    /** Frees the slot of the block that was accessed longest ago, saving it first if need be. */
    method EvictLeastRecentlyUsed() returns (st: Status, slot: int)
      requires Valid()
      modifies `used, `dirty, `entriesUsed, raw, raw.device, lru, hash
      ensures Valid() && st == Ok
      ensures if old(lru.list) == [] then DeviceKept() else Saved(old(Victim()))
      ensures old(lru.list) == [] ==> slot == NIL && lru.list == [] && entriesUsed == old(entriesUsed)
      ensures old(lru.list) != [] ==>
                && slot == old(lru.list)[|old(lru.list)| - 1]
                && lru.list == old(lru.list)[..|old(lru.list)| - 1]
                && 0 <= slot < slots && used == old(used)[slot := false]
                && entriesUsed == old(entriesUsed) - 1
                && hash.index == old(hash.index) - {old(hash.blockNo)[slot]}
      ensures Dirty() == old(Dirty()) - if old(lru.list) == [] then {} else {old(Victim())}
    {
      hide Recent, Hashed, Indexed, Keys, Mirrors, Sized;
      slot := lru.oldest;
      if slot == NIL {
        return Ok, NIL;
      }
      DropsFromLists(slot);
      CleanSlot(hash.index, dirty, hash.blockNo, hash.on, slot);
      st := WriteBack(slot);
      if st != Ok {
        return;
      }
      DropOldest(slot);
    }

    method FindUnusedSlot() returns (st: Status, slot: int)
      requires Structure()
      ensures st == if entriesUsed < slots then Ok else ErrResourcesExhausted
      ensures st.Ok? ==> 0 <= slot < slots && !used[slot] && forall s :: 0 <= s < slot ==> used[s]
    {
      if entriesUsed >= slots {
        return ErrResourcesExhausted, NIL;
      }
      MarkedBound(used);
      for i := 0 to slots
        invariant forall j :: 0 <= j < i ==> used[j]
      {
        if !used[i] {
          return Ok, i;
        }
      }
      assert false;
    }

    /** Lists a slot that has just been loaded with block no. */
    method AddEntryToLists(slot: int, no: nat)
      requires Valid() && Resident()
      requires 0 <= slot < slots && slot !in lru.list && used[slot] && !dirty[slot]
      requires no !in hash.index && no < |view| && data[slot] == raw.disk[no]
      modifies this`history, lru, hash
      ensures Valid() && Resident()
      ensures lru.list == [slot] + old(lru.list)
      ensures hash.index == old(hash.index)[no := slot]
      ensures history == old(history) + [no] && Dirty() == old(Dirty())
    {
      RecentAdd(hash.blockNo, lru.list, history, slot, no);
      lru.PushNewest(slot);
      hash.Insert(slot, no);
      assert Elems(lru.list) == Elems(old(lru.list)) + {slot};
      history := history + [no];
    }

    lemma MovesToFront(slot: int)
      requires Valid() && slot in lru.list
      ensures 0 <= slot < slots
      ensures Recent(hash.blockNo, [slot] + Without(lru.list, slot), history + [hash.blockNo[slot]])
      ensures |Without(lru.list, slot)| == |lru.list| - 1
      ensures Elems([slot] + Without(lru.list, slot)) == Elems(lru.list)
      ensures |Mru(history + [hash.blockNo[slot]])| == |Mru(history)|
    {
      RecentPromote(hash.blockNo, lru.list, hash.index, history, slot);
    }

    /** The slot of a cached block becomes the newest one. */
    method Promote(slot: int)
      requires Valid() && Resident() && slot in lru.list
      modifies `history, lru
      ensures Valid() && Resident()
      ensures |lru.list| == |old(lru.list)| && lru.list == [slot] + Without(old(lru.list), slot)
      ensures history == old(history) + [hash.blockNo[slot]]
    {
      hide RawStore.Valid, HashTable.Valid, LruList.Valid, Faithful, Recent, Mru, Elems, Without;
      MovesToFront(slot);
      lru.Promote(slot);
      history := history + [hash.blockNo[slot]];
    }

    /** Marks an unused slot. */
    method MarkTaken(slot: int)
      requires Valid() && 0 <= slot < slots && !used[slot]
      modifies `used, `entriesUsed
      ensures Valid() && slot !in hash.on && used == old(used)[slot := true] && entriesUsed == old(entriesUsed) + 1
    {
      hide Recent, Hashed, Keys, Sized, Mirrors, Mru, Linked;
      assert slot !in Marked(used);
      assert Marked(used[slot := true]) == Marked(used) + {slot};
      used := used[slot := true];
      entriesUsed := entriesUsed + 1;
    }

    /** Takes a slot for a new block: an unused one, or the one evicted. */
    method TakeSlot() returns (st: Status, slot: int)
      requires Valid() && Resident() && (entriesUsed < slots || lru.list != [])
      modifies `used, `dirty, `entriesUsed, raw, raw.device, lru, hash
      ensures Valid() && Resident() && st == Ok
      ensures 0 <= slot < slots && slot !in hash.on && used[slot]
      ensures Lost() == old(Lost()) + 1 && hash.index.Keys <= old(hash.index).Keys
      ensures if old(entriesUsed) < slots then DeviceKept() else Saved(old(Victim()))
      ensures var gone := if old(entriesUsed) < slots then {} else {old(Victim())};
              Dirty() == old(Dirty()) - gone && hash.index.Keys == old(hash.index).Keys - gone
    {
      hide Recent, Hashed, Keys, Sized, Mirrors, Mru, DirtyBlocks;
      if entriesUsed >= slots {
        MarkedBound(used);
        assert lru.list[|lru.list| - 1] in Elems(lru.list);
        st, slot := EvictLeastRecentlyUsed();
        if st != Ok {
          return;
        }
      } else {
        st, slot := FindUnusedSlot();
        if st != Ok {
          return;
        }
      }
      MarkTaken(slot);
    }

    /** Whether a block can be served: in a slot, or with a slot left to load it into. */
    ghost predicate CanServe(no: nat)
      reads this, lru, hash
    {
      no in hash.index || entriesUsed < slots || lru.list != []
    }

    /** Every block can be served when some slot is still in service, and none otherwise. */
    lemma ServesEveryBlock()
      requires Valid()
      ensures forall no: nat :: CanServe(no) <==> Lost() < slots
    {
      MarkedBound(used);
      if Lost() >= slots {
        assert hash.on == {};
      }
    }

    lemma NothingCached()
      requires Healthy() && history == []
      ensures entriesUsed == 0
    {
      assert Mru(history) == [];
    }

    /** A new cache after one access. */
    lemma OneBlockCached(b: nat)
      requires Healthy() && history == [b]
      ensures entriesUsed == 1 && Victim() == b && hash.index.Keys == {b}
    {
      assert Mru(history[..0]) == [];
      assert Mru(history) == [b];
      assert |lru.list| == 1;
      CachedBlocks(hash.blockNo, lru.list, hash.index);
    }

    /** With no slot lost, the cached blocks are the most recently accessed ones, as many as there are slots. */
    lemma MostRecentAreResident()
      requires Valid() && Resident() && Lost() == 0
      ensures |lru.list| == if |Mru(history)| < slots then |Mru(history)| else slots
      ensures Blocks(hash.blockNo, lru.list) == Mru(history)[..|lru.list|]
      ensures forall b :: b in hash.index <==> b in Mru(history)[..|lru.list|]
    {
      MarkedBound(used);
      CachedBlocks(hash.blockNo, lru.list, hash.index);
    }

    /** The slot that eviction picks holds the block whose last access is the earliest of all cached blocks. */
    lemma OldestIsLeastRecent(b: nat)
      requires Valid() && lru.list != [] && b in hash.index && hash.index[b] != lru.oldest
      ensures 0 <= lru.oldest < slots
      ensures b in history && hash.blockNo[lru.oldest] in history
      ensures LastAccess(history, hash.blockNo[lru.oldest]) < LastAccess(history, b)
    {
      var n := |lru.list| - 1;
      assert hash.index[b] in Elems(lru.list);
      var i :| 0 <= i < |lru.list| && lru.list[i] == hash.index[b];
      var p := Blocks(hash.blockNo, lru.list);
      assert p[i] == b == Mru(history)[i];
      assert p[n] == hash.blockNo[lru.oldest] == Mru(history)[n];
      MruByLastAccess(history, i, n);
    }

    /** Loads a block into a slot that was taken for it. */
    method LoadInto(slot: int, no: nat) returns (st: Status)
      requires Valid() && Resident() && 0 <= slot < slots && slot !in hash.on && used[slot] && no !in hash.index
      requires no * raw.perBlock + raw.perBlock <= U32
      modifies `data, `history, lru, hash
      ensures Valid() && Resident() && Dirty() == old(Dirty())
      ensures st == if no < |view| then Ok else ErrOutOfBounds
      ensures hash.index == if no < |view| then old(hash.index)[no := slot] else old(hash.index)
      ensures history == old(history) + if no < |view| then [no] else []
      ensures Lost() == old(Lost()) - if no < |view| then 1 else 0
    {
      hide Recent, Hashed, Keys, Linked, Mru, DirtyBlocks;
      assert slot !in Marked(dirty);
      var block;
      st, block := raw.LoadBlockRaw(no, data[slot]);
      data := data[slot := block];
      if st != Ok {
        return;
      }
      AddEntryToLists(slot, no);
    }

    /** Loads a block that is not in the cache. */
    method FetchMissing(no: nat) returns (st: Status, slot: int)
      requires Valid() && Resident() && CanServe(no) && no !in hash.index
      requires no * raw.perBlock + raw.perBlock <= U32
      modifies `data, `used, `dirty, `entriesUsed, `history, raw, raw.device, lru, hash
      ensures Valid() && Resident()
      ensures st == if no < |view| then Ok else ErrOutOfBounds
      ensures no < |view| ==> no in hash.index && slot == hash.index[no]
      ensures no < |view| ==> history == old(history) + [no] && Lost() == old(Lost())
      ensures no >= |view| ==> history == old(history) && Lost() == old(Lost()) + 1
      ensures Spilled(no) && Dirty() == old(Dirty()) - old(Evicted(no))
      ensures hash.index.Keys == old(hash.index).Keys - old(Evicted(no)) + if no < |view| then {no} else {}
    {
      hide Recent, Hashed, Keys, Linked, Mru, DirtyBlocks;
      st, slot := TakeSlot();
      if st != Ok {
        return;
      }
      st := LoadInto(slot, no);
    }

    /** Finds the slot of a block, loading the block if need be. */
    method Fetch(no: nat) returns (st: Status, slot: int)
      requires Valid() && Resident() && CanServe(no)
      requires no * raw.perBlock + raw.perBlock <= U32
      modifies `data, `used, `dirty, `entriesUsed, `history, raw, raw.device, lru, hash
      ensures Valid() && Resident()
      ensures st == if no < |view| then Ok else ErrOutOfBounds
      ensures no < |view| ==> no in hash.index && slot == hash.index[no]
      ensures no < |view| ==> history == old(history) + [no] && Lost() == old(Lost())
      ensures no >= |view| ==> history == old(history) && Lost() == old(Lost()) + 1
      ensures Spilled(no) && Dirty() == old(Dirty()) - old(Evicted(no))
      ensures hash.index.Keys == old(hash.index).Keys - old(Evicted(no)) + if no < |view| then {no} else {}
    {
      hide Recent, Hashed, Keys, Linked, Mru, DirtyBlocks;
      slot := hash.Find(no);
      if slot != NIL {
        assert slot in hash.on;
        Promote(slot);
        return Ok, slot;
      }
      st, slot := FetchMissing(no);
    }

    /** Replaces the contents of a cached block. */
    method Alter(slot: int, no: nat, block: Block)
      requires Valid() && no in hash.index && slot == hash.index[no] && |block| == raw.blockSize
      modifies `data, `dirty, `view
      ensures Valid() && view == old(view)[no := block] && Dirty() == old(Dirty()) + {no}
    {
      hide Recent, Hashed, Keys, Linked;
      data := data[slot := block];
      dirty := dirty[slot := true];
      view := view[no := block];
      assert Marked(dirty) == Marked(old(dirty)) + {slot};
    }

    /** One operation on one block. A read returns bytes in out. */
    method Io(op: Op, no: nat, offset: nat, buffer: Block, length: nat) returns (st: Status, out: Block)
      requires Valid() && Resident() && CanServe(no)
      requires no * raw.perBlock + raw.perBlock <= U32
      requires offset + length < U32
      requires op == Op.Write ==> |buffer| == length
      modifies this, raw, raw.device, lru, hash
      ensures Valid() && Resident()
      ensures st == if no < |view| && offset + length <= raw.blockSize then Ok else ErrOutOfBounds
      ensures view == if st == Ok then Updated(old(view), op, no, offset, buffer) else old(view)
      ensures out == if st == Ok && op == Op.Read then view[no][offset..offset + length] else []
      ensures history == if no < |view| then old(history) + [no] else old(history)
      ensures Lost() == if no < |view| then old(Lost()) else old(Lost()) + 1
      ensures Spilled(no)
      ensures Dirty() == old(Dirty()) - old(Evicted(no)) + if st == Ok && op != Op.Read then {no} else {}
      ensures hash.index.Keys == old(hash.index).Keys - old(Evicted(no)) + if no < |view| then {no} else {}
    {
      hide Recent, Hashed, Keys, Linked, Mru, DirtyBlocks;
      var slot;
      out := [];
      st, slot := Fetch(no);
      if st != Ok {
        return;
      }
      if offset + length > raw.blockSize {
        return ErrOutOfBounds, [];
      }
      assert slot in hash.on;
      match op {
        case Read =>
          out := data[slot][offset..offset + length];
        case Write =>
          Alter(slot, no, Splice(data[slot], offset, buffer));
        case Wipe =>
          Alter(slot, no, Zeros(raw.blockSize));
      }
    }

    /** Writes every dirty slot to the device. */
    method Flush() returns (st: Status)
      requires Valid()
      modifies `dirty, raw, raw.device
      ensures Valid() && st == Ok && raw.disk == view && Dirty() == {}
    {
      hide Recent, Hashed, Keys, Linked, Indexed, Sized;
      for i := 0 to slots
        invariant Valid()
        invariant forall s :: 0 <= s < i ==> !dirty[s]
      {
        if !used[i] || !dirty[i] {
          assert dirty[i] ==> i in Marked(dirty);
          continue;
        }
        st := WriteBack(i);
        if st != Ok {
          return;
        }
      }
      st := Ok;
    }

    lemma HealthyServes(no: nat)
      requires Healthy()
      ensures CanServe(no)
    {
      ServesEveryBlock();
    }

    lemma InRangeServed(no: nat)
      requires Healthy() && no < |view|
      ensures CanServe(no) && no * raw.perBlock + raw.perBlock <= U32
      ensures |view[no]| == raw.blockSize
    {
      ServesEveryBlock();
      InRangeMeans(no, raw.perBlock, raw.device.sectorCount);
    }

    lemma ViewSized()
      requires Healthy()
      ensures Sized(view, raw.blockSize)
    {
    }

    /** Whether the sectors of a block have numbers of 32 bits. */
    ghost predicate Numbered(no: nat)
      reads `view
    {
      no < |view| || no * raw.perBlock + raw.perBlock <= U32
    }

    method Read(no: nat, offset: nat, length: nat) returns (st: Status, out: Block)
      requires Healthy() && offset + length <= raw.blockSize < U32 && Numbered(no)
      modifies this, raw, raw.device, lru, hash
      ensures view == old(view) && if no < |view| then Healthy() else Valid()
      ensures st == if no < |view| then Ok else ErrOutOfBounds
      ensures st == Ok ==> |view[no]| == raw.blockSize && out == view[no][offset..offset + length]
    {
      hide Valid, Resident, CanServe;
      HealthyServes(no);
      if no < |view| {
        InRangeServed(no);
      }
      st, out := Io(Op.Read, no, offset, [], length);
    }

    method Write(no: nat, offset: nat, buffer: Block) returns (st: Status)
      requires Healthy() && raw.blockSize < U32 && offset + |buffer| < U32 && Numbered(no)
      modifies this, raw, raw.device, lru, hash
      ensures if no < |old(view)| then Healthy() && |old(view)[no]| == raw.blockSize else Valid()
      ensures st == if no < |old(view)| && offset + |buffer| <= raw.blockSize then Ok else ErrOutOfBounds
      ensures view == if st == Ok then old(view)[no := Splice(old(view)[no], offset, buffer)] else old(view)
      ensures st != Ok ==> Spilled(no)
    {
      hide Valid, Resident, CanServe, Splice, Spilled;
      HealthyServes(no);
      if no < |view| {
        InRangeServed(no);
      }
      ghost var out;
      st, out := Io(Op.Write, no, offset, buffer, |buffer|);
    }

    method Wipe(no: nat) returns (st: Status)
      requires Healthy() && no < |view| && raw.blockSize < U32
      modifies this, raw, raw.device, lru, hash
      ensures Healthy() && st == Ok
      ensures view == old(view)[no := Zeros(raw.blockSize)]
    {
      hide Valid, Resident, CanServe;
      InRangeServed(no);
      ghost var out;
      st, out := Io(Op.Wipe, no, 0, [], raw.blockSize);
    }
  }
}
