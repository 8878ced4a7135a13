/** The kernel heap: first fit with splitting, and joining of free neighbours, over linked headers. */
module KernelHeap {
  import opened Common
  import opened HeapShapes

  const NULL: nat := 0

  /** A header as it is in memory. */
  datatype Header = Header(used: bool, size: nat, next: nat, prev: nat)

  /** The test of the search, in 32-bit arithmetic. */
  predicate Suits(blockSize: nat, size: nat, h: nat) {
    blockSize == size || blockSize > (size + h) % U32
  }

  /**
   * The test finds only blocks with room for the request and, unless the size is exact, for a header
   * and at least one byte more, exactly when size plus header fits in 32 bits.
   */
  lemma SuitsIsSound(size: nat, h: nat)
    requires 0 < h < U32 - 1 && size < U32
    ensures (forall b: nat :: b < U32 && Suits(b, size, h) ==> b == size || b > size + h) <==> size + h < U32
  {
    if size + h >= U32 {
      var b := size + h - U32 + 1;
      assert b < U32 && Suits(b, size, h) && b != size && b <= size + h;
    }
  }

  function AddrAt(bs: seq<Blk>, k: int): (a: nat) {
    if 0 <= k < |bs| then bs[k].addr else NULL
  }

  /** The header of block k is in memory, with the links of its place. */
  ghost predicate Linked(hs: map<nat, Header>, bs: seq<Blk>, k: nat)
    requires k < |bs|
  {
    && bs[k].addr in hs
    && hs[bs[k].addr] == Header(bs[k].used, bs[k].size, AddrAt(bs, k + 1), AddrAt(bs, k - 1))
  }

  ghost predicate AllLinked(hs: map<nat, Header>, bs: seq<Blk>) {
    forall k: nat :: k < |bs| ==> Linked(hs, bs, k)
  }

  /** The blocks have different addresses, none of them null. */
  ghost predicate Placed(bs: seq<Blk>) {
    && (forall k :: 0 <= k < |bs| ==> bs[k].addr != NULL)
    && (forall j, k :: 0 <= j < k < |bs| ==> bs[j].addr != bs[k].addr)
  }

  lemma ShapePlaced(bs: seq<Blk>, start: nat, end: nat, h: nat)
    requires Tiled(bs, start, end, h) && 0 < h && 0 < start
    ensures Placed(bs)
  {
    forall k | 0 <= k < |bs|
      ensures bs[k].addr != NULL
    {
      Inside(bs, start, end, h, k);
    }
    forall j, k | 0 <= j < k < |bs|
      ensures bs[j].addr != bs[k].addr
    {
      Apart(bs, start, end, h, j, k);
    }
  }

  /** The links after block k is split. */
  lemma SplitLinked(hs: map<nat, Header>, bs: seq<Blk>, k: nat, size: nat, h: nat, hs': map<nat, Header>)
    requires AllLinked(hs, bs) && k + 1 < |bs| && size + h <= bs[k].size
    requires Placed(bs) && Placed(SplitAt(bs, k, size, h))
    requires var a, f, n := bs[k].addr, bs[k].addr + h + size, bs[k + 1].addr;
             && n in hs
             && hs' == hs[f := Header(false, bs[k].size - h - size, n, a)]
                         [a := Header(true, size, f, AddrAt(bs, k - 1))]
                         [n := hs[n].(prev := f)]
    ensures AllLinked(hs', SplitAt(bs, k, size, h))
  {
    var r := SplitAt(bs, k, size, h);
    forall j: nat | j < |r|
      ensures Linked(hs', r, j)
    {
      var a, f, n := bs[k].addr, bs[k].addr + h + size, bs[k + 1].addr;
      assert r[k].addr == a && r[k + 1].addr == f && r[k + 2].addr == n;
      if j < k {
        assert Linked(hs, bs, j) && r[j] == bs[j];
        assert j + 1 < k ==> r[j + 1] == bs[j + 1];
      } else if j > k + 1 {
        assert Linked(hs, bs, j - 1) && r[j] == bs[j - 1];
      }
    }
  }

  /** The links after block k + 1 is joined to block k. */
  lemma MergedLinked(hs: map<nat, Header>, bs: seq<Blk>, k: nat, h: nat, hs': map<nat, Header>)
    requires AllLinked(hs, bs) && Placed(bs) && k + 2 < |bs|
    requires var a, n := bs[k].addr, bs[k + 2].addr;
             && n in hs
             && hs' == hs[n := hs[n].(prev := a)]
                         [a := Header(bs[k].used, bs[k].size + h + bs[k + 1].size, n, AddrAt(bs, k - 1))]
    ensures AllLinked(hs', Merged(bs, k, h))
  {
    var r := Merged(bs, k, h);
    forall j: nat | j < |r|
      ensures Linked(hs', r, j)
    {
      if j < k {
        assert Linked(hs, bs, j);
      } else if j > k {
        assert Linked(hs, bs, j + 1);
      }
    }
  }

  lemma FlaggedLinked(hs: map<nat, Header>, bs: seq<Blk>, k: nat, used: bool)
    requires AllLinked(hs, bs) && Placed(bs) && k < |bs| && bs[k].addr in hs
    ensures AllLinked(hs[bs[k].addr := hs[bs[k].addr].(used := used)], Flagged(bs, k, used))
  {
    var r, hs' := Flagged(bs, k, used), hs[bs[k].addr := hs[bs[k].addr].(used := used)];
    forall j: nat | j < |r|
      ensures Linked(hs', r, j)
    {
      assert Linked(hs, bs, j);
    }
  }

  lemma {:induction false} FreeSumBound(bs: seq<Blk>, start: nat, end: nat, h: nat)
    requires Tiled(bs, start, end, h)
    ensures FreeSum(bs) + h <= end - start
  {
    if |bs| > 1 {
      var rest := bs[1..];
      assert Adjoins(bs, 0, h);
      forall k: nat | k < |rest| - 1
        ensures Adjoins(rest, k, h)
      {
        assert Adjoins(bs, k + 1, h);
      }
      FreeSumBound(rest, rest[0].addr, end, h);
    } else {
      FreeSumOne(bs[0]);
      assert bs == [bs[0]];
    }
  }

  /** The block of a live payload. */
  ghost function BlockOf(bs: seq<Blk>, h: nat, p: nat): (k: nat)
    requires p in Payloads(bs, h)
    ensures k < |bs| && bs[k].used && bs[k].addr + h == p
  {
    if bs[0].used && bs[0].addr + h == p then 0 else BlockOf(bs[1..], h, p) + 1
  }

  /** The block is free, and of the same size or larger by more than a header. */
  predicate Fitting(b: Blk, size: nat, h: nat) {
    !b.used && (b.size == size || b.size > size + h)
  }

  ghost predicate NoneFits(bs: seq<Blk>, size: nat, h: nat) {
    forall b :: b in bs ==> !Fitting(b, size, h)
  }

  /** The place from k on of the first free block that passes the test of the search. */
  ghost function FirstSuited(bs: seq<Blk>, size: nat, h: nat, k: nat): (found: nat)
    requires k <= |bs|
    ensures k <= found <= |bs|
    ensures forall j :: k <= j < found ==> bs[j].used || !Suits(bs[j].size, size, h)
    ensures found < |bs| ==> !bs[found].used && Suits(bs[found].size, size, h)
    decreases |bs| - k
  {
    if k == |bs| || (!bs[k].used && Suits(bs[k].size, size, h)) then k else FirstSuited(bs, size, h, k + 1)
  }

  /** The first block that fits, for sizes that leave room for a header in 32 bits. */
  lemma FirstFits(bs: seq<Blk>, size: nat, h: nat)
    requires size + h < U32
    ensures var k := FirstSuited(bs, size, h, 0);
            NoneFits(bs[..k], size, h) && (k < |bs| ==> Fitting(bs[k], size, h))
  {
  }

  datatype Request = Allocate(size: nat) | Free(ptr: nat)

  /** The answer to a request. */
  ghost function Answer(bs: seq<Blk>, r: Request, h: nat): (ptr: nat) {
    match r
    case Allocate(size) =>
      var k := FirstSuited(bs, size, h, 0);
      if k < |bs| then bs[k].addr + h else NULL
    case Free(_) => NULL
  }

  /** The blocks after a request. */
  ghost function Next(bs: seq<Blk>, r: Request, h: nat): (bs': seq<Blk>) {
    match r
    case Allocate(size) =>
      var k := FirstSuited(bs, size, h, 0);
      if k >= |bs| then bs
      else if bs[k].size == size then Flagged(bs, k, true)
      else if bs[k].size > size + h then SplitAt(bs, k, size, h) else bs
    case Free(p) =>
      if p in Live(bs, h) then Freed(bs, BlockOf(bs[..|bs| - 1], h, p), h) else bs
  }

  ghost function BlocksAfter(bs: seq<Blk>, rs: seq<Request>, h: nat, n: nat): (bs': seq<Blk>)
    requires n <= |rs|
  {
    if n == 0 then bs else Next(BlocksAfter(bs, rs, h, n - 1), rs[n - 1], h)
  }

  /** The allocations after a request is answered with ptr. */
  ghost function Answered(live: map<nat, nat>, r: Request, ptr: nat): (live': map<nat, nat>) {
    match r
    case Allocate(size) => if ptr == NULL then live else live[ptr := size]
    case Free(p) => live - {p}
  }

  ghost function After(live: map<nat, nat>, rs: seq<Request>, ptrs: seq<nat>, n: nat): (live': map<nat, nat>)
    requires n <= |rs| && n <= |ptrs|
  {
    if n == 0 then live else Answered(After(live, rs, ptrs, n - 1), rs[n - 1], ptrs[n - 1])
  }

  lemma {:induction false} AfterPrefix(live: map<nat, nat>, rs: seq<Request>, a: seq<nat>, b: seq<nat>, n: nat)
    requires n <= |rs| && n <= |a| && a <= b
    ensures After(live, rs, a, n) == After(live, rs, b, n)
  {
    if n > 0 {
      AfterPrefix(live, rs, a, b, n - 1);
    }
  }

  /** The payload at ptr is that of a block that fits, and no block below it does. */
  ghost predicate Lowest(bs: seq<Blk>, size: nat, h: nat, ptr: nat) {
    && (exists b :: b in bs && Fitting(b, size, h) && b.addr + h == ptr)
    && forall b :: b in bs && b.addr + h < ptr ==> !Fitting(b, size, h)
  }

  lemma FirstIsLowest(bs: seq<Blk>, start: nat, end: nat, h: nat, size: nat)
    requires Shape(bs, start, end, h) && size + h < U32 && FirstSuited(bs, size, h, 0) < |bs|
    ensures Lowest(bs, size, h, bs[FirstSuited(bs, size, h, 0)].addr + h)
  {
    hide Tiled, FirstSuited, Fitting;
    var k := FirstSuited(bs, size, h, 0);
    FirstFits(bs, size, h);
    assert bs[k] in bs;
    forall b | b in bs && b.addr < bs[k].addr
      ensures !Fitting(b, size, h)
    {
      var j :| 0 <= j < |bs| && bs[j] == b;
      if j > k {
        Apart(bs, start, end, h, k, j);
      } else if j < k {
        assert bs[..k][j] in bs[..k];
      }
    }
  }

  /** The answer is that of the lowest block that fits, null exactly when none does, and was not live. */
  ghost predicate Served(bs: seq<Blk>, r: Request, ptr: nat, h: nat) {
    && ptr == Answer(bs, r, h)
    && (r.Allocate? ==>
          && (ptr == NULL <==> NoneFits(bs, r.size, h))
          && (ptr != NULL ==> Lowest(bs, r.size, h, ptr) && ptr !in Live(bs, h)))
  }

  ghost predicate ServedAt(bs: seq<Blk>, live: map<nat, nat>, rs: seq<Request>, ptrs: seq<nat>, h: nat, i: nat)
    requires i < |rs| && i < |ptrs|
  {
    && Live(BlocksAfter(bs, rs, h, i), h) == After(live, rs, ptrs, i)
    && Served(BlocksAfter(bs, rs, h, i), rs[i], ptrs[i], h)
  }

  /** No other block starts inside the region's last header. */
  lemma LastBlock(bs: seq<Blk>, start: nat, end: nat, h: nat, k: nat)
    requires Tiled(bs, start, end, h) && k < |bs| - 1
    ensures bs[k].addr + h + bs[k].size <= end - h
  {
    Apart(bs, start, end, h, k, |bs| - 1);
  }

  lemma MergedFront(bs: seq<Blk>, k: nat, h: nat)
    requires k + 1 < |bs|
    ensures Merged(bs, k, h)[k].addr == bs[k].addr && Merged(bs, k, h)[k].used == bs[k].used
    ensures k > 0 ==> Merged(bs, k, h)[k - 1] == bs[k - 1]
  {
  }

  lemma TailUsed(bs: seq<Blk>, start: nat, end: nat, h: nat)
    requires Tiled(bs, start, end, h)
    ensures bs != [] && bs[|bs| - 1].used
  {
  }

  lemma FlaggedParted(bs: seq<Blk>, k: nat)
    requires NoTwoFree(bs) && k < |bs|
    ensures NoTwoFree(Flagged(bs, k, true))
  {
    forall j: nat | j < |bs| - 1
      ensures Parted(Flagged(bs, k, true), j)
    {
      assert Parted(bs, j);
    }
  }

  /** What taking block k, or its first part, does to the live allocations. */
  lemma Taken(bs: seq<Blk>, start: nat, end: nat, h: nat, k: nat, size: nat)
    requires Shape(bs, start, end, h) && k < |bs| && !bs[k].used && (bs[k].size == size || bs[k].size > size + h)
    ensures k < |bs| - 1 && bs[k].addr + h !in Live(bs, h)
    ensures bs[k].size == size ==> Live(Flagged(bs, k, true), h) == Live(bs, h)[bs[k].addr + h := size]
    ensures bs[k].size > size + h ==> Live(SplitAt(bs, k, size, h), h) == Live(bs, h)[bs[k].addr + h := size]
  {
    hide Live, NoTwoFree;
    FlaggedLive(bs, start, end, h, k);
    if bs[k].size > size + h {
      SplitLive(bs, start, end, h, k, size);
    }
  }

  lemma SplitAddresses(bs: seq<Blk>, k: nat, size: nat, h: nat)
    requires k + 1 < |bs| && size + h <= bs[k].size && Placed(SplitAt(bs, k, size, h))
    ensures var a, f, n := bs[k].addr, bs[k].addr + h + size, bs[k + 1].addr;
            a != f && f != n && n != a && n != NULL
  {
    var r := SplitAt(bs, k, size, h);
    assert r[k].addr == bs[k].addr && r[k + 1].addr == bs[k].addr + h + size && r[k + 2].addr == bs[k + 1].addr;
  }

  lemma LinkedAt(hs: map<nat, Header>, bs: seq<Blk>, k: nat)
    requires AllLinked(hs, bs) && k < |bs|
    ensures bs[k].addr in hs
    ensures hs[bs[k].addr] == Header(bs[k].used, bs[k].size, AddrAt(bs, k + 1), AddrAt(bs, k - 1))
  {
    assert Linked(hs, bs, k);
  }

  lemma Places(bs: seq<Blk>, start: nat, end: nat, h: nat)
    requires Shape(bs, start, end, h) && 0 < start
    ensures Placed(bs) && FreeSum(bs) <= end - start
  {
    ShapePlaced(bs, start, end, h);
    FreeSumBound(bs, start, end, h);
  }

  class Heap {
    const headerSize: nat
    const start: nat
    const end: nat
    var available: nat
    var headers: map<nat, Header> // the headers in memory, by address; those of joined blocks stay behind
    var listHead: nat
    ghost var blocks: seq<Blk>

    ghost predicate Valid()
      reads this
    {
      && 0 < start && start + 2 * headerSize <= end < U32
      && Shape(blocks, start, end, headerSize)
      && AllLinked(headers, blocks)
      && listHead == start
      && available == FreeSum(blocks) <= end - start
    }

    ghost function Allocations(): (m: map<nat, nat>)
      reads this
    {
      Live(blocks, headerSize)
    }

    ghost predicate Pristine()
      reads this
    {
      && start + 2 * headerSize <= end
      && blocks == [Blk(start, end - start - 2 * headerSize, false), Blk(end - headerSize, 0, true)]
      && available == end - start - 2 * headerSize
    }

    constructor (heapStart: nat, heapSize: nat, h: nat)
      requires 0 < heapStart && 0 < h && 2 * h <= heapSize && heapStart + heapSize < U32
      ensures Valid() && Pristine() && Allocations() == map[]
      ensures start == heapStart && end == heapStart + heapSize && headerSize == h
    {
      headerSize, start, end := h, heapStart, heapStart + heapSize;
      available := heapSize - 2 * h;
      var head, tail := heapStart, heapStart + heapSize - h;
      headers := map[head := Header(false, heapSize - 2 * h, tail, NULL), tail := Header(true, 0, NULL, head)];
      listHead := head;
      blocks := [Blk(head, heapSize - 2 * h, false), Blk(tail, 0, true)];
      new;
      assert Adjoins(blocks, 0, h) && Parted(blocks, 0);
      FreeSumTwo(blocks[0], blocks[1]);
      assert blocks[..1] == [blocks[0]];
      OnePayload(blocks[0], h);
    }

    lemma PlacedNow()
      requires Valid()
      ensures Placed(blocks) && 1 < |blocks| && blocks[0].addr == start && blocks[|blocks| - 1].used
    {
      ShapePlaced(blocks, start, end, headerSize);
    }

    /** The first free block that passes the test. */
    method FindFirst(size: nat) returns (curr: nat)
      requires Valid()
      ensures curr == AddrAt(blocks, FirstSuited(blocks, size, headerSize, 0))
      ensures curr == NULL <==> FirstSuited(blocks, size, headerSize, 0) == |blocks|
    {
      hide FreeSum, Shape;
      PlacedNow();
      curr := listHead;
      ghost var k := 0;
      while curr != NULL
        invariant k <= |blocks| && curr == AddrAt(blocks, k)
        invariant FirstSuited(blocks, size, headerSize, 0) == FirstSuited(blocks, size, headerSize, k)
        decreases |blocks| - k
      {
        assert Linked(headers, blocks, k);
        if !headers[curr].used && Suits(headers[curr].size, size, headerSize) {
          return;
        }
        curr := headers[curr].next;
        k := k + 1;
      }
    }

    /** Splits the free block at curr, which is block k, and gives out its first part. */
    method SplitBlock(curr: nat, size: nat, ghost k: nat)
      requires Valid() && k + 1 < |blocks| && curr == blocks[k].addr && curr in headers
      requires !blocks[k].used && size + headerSize < blocks[k].size
      modifies this
      ensures Valid() && blocks == SplitAt(old(blocks), k, size, headerSize)
    {
      hide Shape, Tiled, FreeSum, SplitAt, AllLinked;
      ghost var bs := blocks;
      SplitShape(bs, start, end, headerSize, k, size);
      SplitSum(bs, k, size, headerSize);
      Places(bs, start, end, headerSize);
      Places(SplitAt(bs, k, size, headerSize), start, end, headerSize);
      SplitAddresses(bs, k, size, headerSize);
      LinkedAt(headers, bs, k);
      LinkedAt(headers, bs, k + 1);
      var newFree := curr + headerSize + size;
      var next := headers[curr].next;
      headers := headers[newFree := Header(false, headers[curr].size - headerSize - size, next, curr)];
      available := available - headerSize;
      headers := headers[curr := headers[curr].(size := size, next := newFree)];
      if next != NULL {
        headers := headers[next := headers[next].(prev := newFree)];
      }
      headers := headers[curr := headers[curr].(used := true)];
      available := available - size;
      blocks := SplitAt(bs, k, size, headerSize);
      SplitLinked(old(headers), bs, k, size, headerSize, headers);
    }

    /** Gives out block k as it is. */
    method TakeBlock(curr: nat, ghost k: nat)
      requires Valid() && k + 1 < |blocks| && curr == blocks[k].addr && curr in headers && !blocks[k].used
      modifies this
      ensures Valid() && blocks == Flagged(old(blocks), k, true)
    {
      hide Tiled, FreeSum, AllLinked, NoTwoFree;
      ghost var bs := blocks;
      Places(bs, start, end, headerSize);
      FlaggedTiled(bs, start, end, headerSize, k, true);
      FlaggedParted(bs, k);
      FlaggedSum(bs, k);
      FlaggedLinked(headers, bs, k, true);
      LinkedAt(headers, bs, k);
      headers := headers[curr := headers[curr].(used := true)];
      available := available - headers[curr].size;
      blocks := Flagged(bs, k, true);
    }

    /**
     * Allocates size bytes in the first block that fits. Null, which makes the kernel panic, when none
     * does. The size must leave room for a header in 32 bits.
     */
    method Kmalloc(size: nat) returns (ptr: nat)
      requires Valid() && size + headerSize < U32
      modifies this
      ensures Valid() && ptr == Answer(old(blocks), Allocate(size), headerSize)
      ensures blocks == Next(old(blocks), Allocate(size), headerSize)
      ensures ptr == NULL <==> NoneFits(old(blocks), size, headerSize)
      ensures ptr != NULL ==> Lowest(old(blocks), size, headerSize, ptr)
      ensures ptr == NULL ==> unchanged(this)
      ensures ptr != NULL ==> ptr !in old(Allocations()) && Allocations() == old(Allocations())[ptr := size]
    {
      hide Shape, FreeSum, AllLinked, Live, Lowest;
      var curr := FindFirst(size);
      ghost var k := FirstSuited(blocks, size, headerSize, 0);
      FirstFits(blocks, size, headerSize);
      assert blocks[..|blocks|] == blocks;
      if curr == NULL {
        return NULL;
      }
      assert blocks[k] in blocks;
      PlacedNow();
      FirstIsLowest(blocks, start, end, headerSize, size);
      Taken(blocks, start, end, headerSize, k, size);
      LinkedAt(headers, blocks, k);
      if headers[curr].size == size {
        TakeBlock(curr, k);
      } else if headers[curr].size > (size + headerSize) % U32 {
        SplitBlock(curr, size, k);
      }
      ptr := curr + headerSize;
    }

    /** A size within a header of 2^32 never gets a block with room for it. */
    lemma NoRoomNearLimit(size: nat, k: nat)
      requires Valid() && size < U32 <= size + headerSize && k < |blocks|
      ensures blocks[k].size < size
      ensures Suits(blocks[k].size, size, headerSize) <==> blocks[k].size > size + headerSize - U32
    {
      Inside(blocks, start, end, headerSize, k);
    }

    /** The heap is linked, tiled and accounted for; two free blocks may be neighbours. */
    ghost predicate Linking()
      reads this
    {
      && 0 < start && 0 < headerSize && start + 2 * headerSize <= end < U32
      && Tiled(blocks, start, end, headerSize)
      && AllLinked(headers, blocks)
      && listHead == start
      && available == FreeSum(blocks)
    }

    /** Joins block next, which is block k + 1, to block. */
    method Join(block: nat, next: nat, ghost k: nat)
      requires Linking() && k + 2 < |blocks| && block == blocks[k].addr && next == blocks[k + 1].addr
      requires !blocks[k].used && !blocks[k + 1].used && block in headers && next in headers
      modifies this
      ensures Linking() && blocks == Merged(old(blocks), k, headerSize)
    {
      hide Tiled, FreeSum, AllLinked, Merged;
      ghost var bs := blocks;
      LinkedAt(headers, bs, k);
      LinkedAt(headers, bs, k + 1);
      LinkedAt(headers, bs, k + 2);
      ShapePlaced(bs, start, end, headerSize);
      MergedTiled(bs, start, end, headerSize, k);
      MergedSum(bs, k, headerSize);
      headers := headers[block := headers[block].(next := headers[next].next)];
      if headers[next].next != NULL {
        headers := headers[headers[next].next := headers[headers[next].next].(prev := block)];
      }
      headers := headers[block := headers[block].(size := headers[block].size + headerSize + headers[next].size)];
      available := available + headerSize;
      blocks := Merged(bs, k, headerSize);
      MergedLinked(old(headers), bs, k, headerSize, headers);
    }

    method ClearUsed(block: nat, ghost k: nat)
      requires Valid() && k + 1 < |blocks| && block == blocks[k].addr && blocks[k].used && block in headers
      modifies this
      ensures Linking() && blocks == Flagged(old(blocks), k, false)
    {
      hide Tiled, FreeSum, AllLinked, NoTwoFree;
      ghost var bs := blocks;
      Places(bs, start, end, headerSize);
      FlaggedTiled(bs, start, end, headerSize, k, false);
      FlaggedSum(bs, k);
      FlaggedLinked(headers, bs, k, false);
      LinkedAt(headers, bs, k);
      headers := headers[block := headers[block].(used := false)];
      available := available + headers[block].size;
      blocks := Flagged(bs, k, false);
    }

    /** Gives a live payload back and joins it with the free blocks beside it. */
    method Kfree(ptr: nat)
      requires Valid() && ptr in Allocations()
      modifies this
      ensures Valid() && blocks == Next(old(blocks), Free(ptr), headerSize)
      ensures Allocations() == old(Allocations()) - {ptr}
    {
      hide Tiled, FreeSum, AllLinked, NoTwoFree, Payloads, Merged;
      ghost var bs := blocks;
      TailUsed(bs, start, end, headerSize);
      ghost var k := BlockOf(bs[..|bs| - 1], headerSize, ptr);
      FreedShape(bs, start, end, headerSize, k);
      FreedLive(bs, start, end, headerSize, k);
      RightTiled(bs, start, end, headerSize, k);
      Places(Freed(bs, k, headerSize), start, end, headerSize);
      var block := ptr - headerSize;
      LinkedAt(headers, bs, k);
      var next, prev := headers[block].next, headers[block].prev;
      Places(bs, start, end, headerSize);
      ClearUsed(block, k);
      LinkedAt(headers, blocks, k);
      LinkedAt(headers, blocks, k + 1);
      if next != NULL && !headers[next].used {
        TailUsed(blocks, start, end, headerSize);
        MergedFront(blocks, k, headerSize);
        Join(block, next, k);
      }
      LinkedAt(headers, blocks, k);
      if k > 0 {
        LinkedAt(headers, blocks, k - 1);
      }
      if prev != NULL && !headers[prev].used {
        Join(prev, block, k - 1);
      }
    }

    /** Live payloads lie inside the region, apart from each other and from every header. */
    lemma LivePayloadsApart(p: nat)
      requires Valid() && p in Allocations()
      ensures var size := Allocations()[p];
              && start + headerSize <= p && p + size <= end - headerSize
              && (forall q :: q in Allocations() && q != p ==>
                  p + size <= q - headerSize || q + Allocations()[q] <= p - headerSize)
              && (forall k :: 0 <= k < |blocks| ==> blocks[k].addr + headerSize <= p || p + size <= blocks[k].addr)
    {
      hide NoTwoFree, Payloads, Tiled, AllLinked, FreeSum;
      TailUsed(blocks, start, end, headerSize);
      var front := blocks[..|blocks| - 1];
      var j := BlockOf(front, headerSize, p);
      FlaggedLive(blocks, start, end, headerSize, j);
      Inside(blocks, start, end, headerSize, j);
      forall q | q in Allocations() && q != p
        ensures p + Allocations()[p] <= q - headerSize || q + Allocations()[q] <= p - headerSize
      {
        var k := BlockOf(front, headerSize, q);
        FlaggedLive(blocks, start, end, headerSize, k);
        LiveApart(blocks, start, end, headerSize, j, k);
      }
      forall k | 0 <= k < |blocks|
        ensures blocks[k].addr + headerSize <= p || p + Allocations()[p] <= blocks[k].addr
      {
        if j != k {
          LiveApart(blocks, start, end, headerSize, j, k);
        }
      }
      LastBlock(blocks, start, end, headerSize, j);
    }

    /** Giving back what was just allocated restores the heap. */
    method AllocateAndFree(size: nat)
      requires Valid() && size + headerSize < U32
      modifies this
      ensures Valid() && blocks == old(blocks) && available == old(available)
    {
      hide NoTwoFree, Tiled, AllLinked, FreeSum, Live;
      var ptr := Kmalloc(size);
      if ptr != NULL {
        Kfree(ptr);
        assert old(Allocations())[ptr := size] - {ptr} == old(Allocations());
        Canonical(blocks, old(blocks), start, end, headerSize);
      }
    }

    /** Giving back all live payloads, in any order, brings back the heap as it was at first. */
    method FreeAll(order: seq<nat>)
      requires Valid() && Distinct(order) && Elems(order) == Allocations().Keys
      modifies this
      ensures Valid() && Pristine()
    {
      hide NoTwoFree, Tiled, AllLinked, FreeSum, Live;
      for i := 0 to |order|
        invariant Valid() && Allocations().Keys == Elems(order[i..])
      {
        assert order[i] in order[i..] && order[i + 1..] == order[i..][1..];
        Kfree(order[i]);
        assert forall p :: p in order[i..] && p != order[i] ==> p in order[i + 1..];
        assert order[i] !in order[i + 1..];
      }
      assert Allocations() == map[];
      NothingLive(blocks, start, end, headerSize);
    }

    method Serve(r: Request, live: map<nat, nat>) returns (ptr: nat, live': map<nat, nat>)
      requires Valid() && live == Allocations() && (r.Allocate? ==> r.size + headerSize < U32)
      modifies this
      ensures Valid() && Served(old(blocks), r, ptr, headerSize) && blocks == Next(old(blocks), r, headerSize)
      ensures live' == Allocations() == Answered(live, r, ptr)
    {
      hide NoTwoFree, Tiled, AllLinked, FreeSum, Live;
      ptr, live' := NULL, live;
      match r {
        case Allocate(size) =>
          ptr := Kmalloc(size);
          if ptr != NULL {
            live' := live[ptr := size];
          }
        case Free(p) =>
          if p in live {
            Kfree(p);
            live' := live - {p};
          }
      }
    }

    /** Any run of requests from the live allocations on, where only live payloads are given back. */
    method Run(rs: seq<Request>, live: map<nat, nat>) returns (ptrs: seq<nat>)
      requires Valid() && live == Allocations()
      requires forall i :: 0 <= i < |rs| && rs[i].Allocate? ==> rs[i].size + headerSize < U32
      modifies this
      ensures Valid() && |ptrs| == |rs| && blocks == BlocksAfter(old(blocks), rs, headerSize, |rs|)
      ensures Allocations() == After(live, rs, ptrs, |rs|)
      ensures forall i :: 0 <= i < |rs| ==> ServedAt(old(blocks), live, rs, ptrs, headerSize, i)
    {
      hide Heap.Valid, Live, Served, Answered, Next;
      ptrs := [];
      var now := live;
      for i := 0 to |rs|
        invariant Valid() && |ptrs| == i && blocks == BlocksAfter(old(blocks), rs, headerSize, i)
        invariant now == Allocations() == After(live, rs, ptrs, i)
        invariant forall j :: 0 <= j < i ==> ServedAt(old(blocks), live, rs, ptrs, headerSize, j)
      {
        ghost var before := ptrs;
        var ptr;
        ptr, now := Serve(rs[i], now);
        ptrs := ptrs + [ptr];
        forall j | 0 <= j <= i
          ensures ServedAt(old(blocks), live, rs, ptrs, headerSize, j)
        {
          AfterPrefix(live, rs, before, ptrs, j);
          assert j < i ==> ServedAt(old(blocks), live, rs, before, headerSize, j);
        }
        AfterPrefix(live, rs, before, ptrs, i);
      }
    }
  }

  /** A heap on which the search answers such a size with the block of all the heap, which is too small. */
  method SizeNearLimit() returns (heap: Heap, curr: nat)
    ensures fresh(heap) && heap.Valid() && curr in heap.headers
    ensures !heap.headers[curr].used && heap.headers[curr].size < U32 - 1
    ensures curr == AddrAt(heap.blocks, FirstSuited(heap.blocks, U32 - 1, heap.headerSize, 0))
  {
    heap := new Heap(0x100000, 0x100000, 16);
    curr := heap.FindFirst(U32 - 1);
    LinkedAt(heap.headers, heap.blocks, 0);
  }
}
