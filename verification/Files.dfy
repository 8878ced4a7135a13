/** The operations on the files of a mounted volume. */
module Files {
  import opened Common
  import opened RawBlocks
  import opened BlockCaches
  import opened Bitmaps
  import opened Ranges
  import opened RangeCodec
  import opened FileLayout
  import opened FileBytes
  import opened FileSteps

  /** An inode in memory. */
  class CachedInode {
    var fileSize: nat
    var blockCount: nat
    const ranges: array<Range>
    var indirect: nat
    var double: nat
    var dirty: bool

    ghost function Value(): (n: Inode)
      reads this, ranges
    {
      Inode(fileSize, blockCount, ranges[..], indirect, double)
    }

    constructor ()
      ensures fresh(ranges) && ranges.Length == RANGES_IN_INODE && Blank(Value()) && !dirty
    {
      ranges := new Range[RANGES_IN_INODE](_ => EMPTY);
      fileSize, blockCount, indirect, double, dirty := 0, 0, 0, 0, false;
      new;
      DepthIs(ranges[..], 0);
    }
  }

  method ToArray(block: Block) returns (arr: array<Range>)
    ensures fresh(arr) && arr[..] == Decode(block)
  {
    arr := new Range[|block| / RANGE_SIZE](i requires 0 <= i < |block| / RANGE_SIZE => RangeAt(block, RANGE_SIZE * i));
  }

  /** A file's blocks are those of its own ranges, then those of its indirect block. */
  lemma TwoLevels(view: seq<Block>, n: Inode)
    requires n.indirect < |view|
    ensures n.indirect == 0 ==> FileBlocks(view, n) == Flat(n.ranges)
    ensures n.indirect != 0 ==> FileBlocks(view, n) == Flat(n.ranges) + Flat(Decode(view[n.indirect]))
  {
  }

  lemma ReservedUsed(view: seq<Block>, files: seq<Inode>, used: set<nat>, v: Volume)
    requires Owns(view, files, used, v)
    ensures 0 in used && v.blocks <= |view|
  {
    assert 0 in Reserved(v);
  }

  class Mounted {
    const volume: Volume
    const cache: BlockCache
    const bitmap: BlockBitmap
    const nodes: seq<CachedInode>

    constructor (volume: Volume, cache: BlockCache, bitmap: BlockBitmap, nodes: seq<CachedInode>)
      ensures this.volume == volume && this.cache == cache && this.bitmap == bitmap && this.nodes == nodes
    {
      this.volume, this.cache, this.bitmap, this.nodes := volume, cache, bitmap, nodes;
    }

    /** The parts fit together. */
    ghost predicate Matched() {
      && bitmap.blocksInDevice == volume.blocks < U32
      && bitmap.blockSize == cache.raw.blockSize == volume.blockSize
      && bitmap.firstBlock == volume.bitmapFirst && bitmap.sizeInBlocks == volume.bitmapCount
      && RANGE_SIZE <= volume.blockSize < U32
    }

    /** No two inodes share memory. */
    ghost predicate Apart() {
      && (forall i :: 0 <= i < |nodes| ==>
          nodes[i].ranges.Length == RANGES_IN_INODE && nodes[i].ranges as object != bitmap.buffer)
      && (forall i, j :: 0 <= i < j < |nodes| ==> nodes[i] != nodes[j] && nodes[i].ranges != nodes[j].ranges)
    }

    ghost function FilesTo(k: nat): (files: seq<Inode>)
      requires k <= |nodes|
      reads nodes, set n | n in nodes :: n.ranges
      ensures |files| == k && forall i :: 0 <= i < k ==> files[i] == nodes[i].Value()
    {
      if k == 0 then [] else FilesTo(k - 1) + [nodes[k - 1].Value()]
    }

    /** The inodes. */
    ghost function Files(): (files: seq<Inode>)
      reads nodes, set n | n in nodes :: n.ranges
      ensures |files| == |nodes| && forall i :: 0 <= i < |nodes| ==> files[i] == nodes[i].Value()
    {
      FilesTo(|nodes|)
    }

    ghost function MarksTo(k: nat): (ds: seq<bool>)
      requires k <= |nodes|
      reads nodes
      ensures |ds| == k && forall j :: 0 <= j < k ==> ds[j] == nodes[j].dirty
    {
      if k == 0 then [] else MarksTo(k - 1) + [nodes[k - 1].dirty]
    }

    /** The marks of the inodes. */
    ghost function Marks(): (ds: seq<bool>)
      reads nodes
      ensures |ds| == |nodes| && forall k :: 0 <= k < |nodes| ==> ds[k] == nodes[k].dirty
    {
      MarksTo(|nodes|)
    }

    /** The cache and the bitmap are usable, and block 0 is used. */
    ghost predicate Working()
      reads cache, cache.raw, cache.raw.device, cache.lru, cache.hash, bitmap, bitmap.buffer
    {
      Matched() && Apart() && cache.Healthy() && bitmap.Valid() && 0 in bitmap.Used() && volume.blocks <= |cache.view|
    }

    ghost predicate Valid()
      reads cache, cache.raw, cache.raw.device, cache.lru, cache.hash, bitmap, bitmap.buffer
      reads nodes, set n | n in nodes :: n.ranges
    {
      Working() && Owns(cache.view, Files(), bitmap.Used(), volume)
    }

    /** Looks an index up in a block of ranges. */
    method RangeBlockResolveIndirectIndex(no: nat, index: nat) returns (st: Status, rest: nat, blockNo: nat)
      requires Working() && no < |cache.view| && Shaped(Decode(cache.view[no]))
      modifies cache, cache.raw, cache.raw.device, cache.lru, cache.hash
      ensures Working() && cache.view == old(cache.view)
      ensures st == if index < |Flat(Decode(cache.view[no]))| then Ok else ErrNotFound
      ensures st == Ok ==> blockNo == Flat(Decode(cache.view[no]))[index] && rest == 0
      ensures st != Ok ==> rest == index - |Flat(Decode(cache.view[no]))|
    {
      hide BlockCache.Healthy, BlockBitmap.Used, BlockBitmap.Fits, Flat, Shaped, Decode;
      var buf;
      rest, blockNo := 0, 0;
      st, buf := cache.Read(no, 0, volume.blockSize);
      if st != Ok {
        return;
      }
      assert buf == cache.view[no];
      var arr := ToArray(buf);
      st, rest, blockNo := RangeArrayResolveIndex(arr, index);
    }

    /** Adds one block at the end of a block of ranges. */
    method RangeBlockExpand(no: nat) returns (st: Status, newBlock: nat, overflown: bool)
      requires Working() && no < |cache.view| && Shaped(Decode(cache.view[no]))
      modifies cache, cache.raw, cache.raw.device, cache.lru, cache.hash, bitmap`hint, bitmap.buffer
      ensures Working() && |cache.view| == |old(cache.view)|
      ensures var a, u, n := Decode(old(cache.view)[no]), old(bitmap.Used()), volume.blocks;
              && (overflown <==> !CanGrow(a, u, n) && Depth(a) == |a|)
              && st == if CanGrow(a, u, n) || Depth(a) == |a| || HasFree(u, n) then Ok else ErrResourcesExhausted
      ensures st != Ok || overflown ==>
                cache.view == old(cache.view) && bitmap.Used() == old(bitmap.Used()) && bitmap.hint == old(bitmap.hint)
      ensures st == Ok && !overflown ==>
                && Appended(Decode(old(cache.view)[no]), old(bitmap.Used()), volume.blocks, old(bitmap.hint),
                            Decode(cache.view[no]), newBlock, bitmap.hint)
                && newBlock < volume.blocks && newBlock !in old(bitmap.Used())
                && bitmap.Used() == old(bitmap.Used()) + {newBlock}
                && cache.view == old(cache.view)[no := cache.view[no]]
                && Shaped(Decode(cache.view[no]))
                && Flat(Decode(cache.view[no])) == Flat(Decode(old(cache.view)[no])) + [newBlock]
    {
      hide BlockCache.Healthy, BlockBitmap.Used, BlockBitmap.Fits, Flat;
      hide Depth, Decode, CanGrow, Appended, BlockCache.Valid, BlockCache.Spilled, Splice;
      var buf;
      newBlock, overflown := 0, false;
      st, buf := cache.Read(no, 0, volume.blockSize);
      if st != Ok {
        return;
      }
      assert buf == cache.view[no];
      var arr := ToArray(buf);
      st, newBlock, overflown := RangeArrayExpand(arr, bitmap);
      if st != Ok || overflown {
        return;
      }
      DecodeEncode(buf, arr[..]);
      var block := Encode(buf, arr[..]);
      SpliceWhole(buf, block);
      st := cache.Write(no, 0, block);
    }

    /** Turns a block that has just been allocated into a block of ranges with one data block. */
    method RangeBlockInitialize(no: nat) returns (st: Status, newBlock: nat)
      requires Working() && no < |cache.view|
      modifies cache, cache.raw, cache.raw.device, cache.lru, cache.hash, bitmap`hint, bitmap.buffer
      ensures Working() && |cache.view| == |old(cache.view)|
      ensures cache.view == old(cache.view)[no := cache.view[no]]
      ensures st == if HasFree(old(bitmap.Used()), volume.blocks) then Ok else ErrResourcesExhausted
      ensures st != Ok ==> bitmap.Used() == old(bitmap.Used()) && bitmap.hint == old(bitmap.hint)
      ensures st == Ok ==>
                && Appended(Decode(Zeros(volume.blockSize)), old(bitmap.Used()), volume.blocks, old(bitmap.hint),
                            Decode(cache.view[no]), newBlock, bitmap.hint)
                && newBlock < volume.blocks && newBlock !in old(bitmap.Used())
                && bitmap.Used() == old(bitmap.Used()) + {newBlock}
                && Shaped(Decode(cache.view[no])) && Flat(Decode(cache.view[no])) == [newBlock]
    {
      hide BlockCache.Healthy, BlockBitmap.Used, BlockBitmap.Fits, Flat, Depth;
      hide Decode, CanGrow, Appended, Zeros, BlockCache.Valid, BlockCache.Spilled, Splice;
      newBlock := 0;
      st := cache.Wipe(no);
      if st != Ok {
        return;
      }
      DecodeZeros(volume.blockSize);
      var buf, overflown;
      st, buf := cache.Read(no, 0, volume.blockSize);
      if st != Ok {
        return;
      }
      assert buf == Zeros(volume.blockSize);
      var arr := ToArray(buf);
      st, newBlock, overflown := RangeArrayExpand(arr, bitmap);
      if st != Ok {
        return;
      }
      if overflown {
        return ErrCorruption, newBlock;
      }
      DecodeEncode(buf, arr[..]);
      var block := Encode(buf, arr[..]);
      SpliceWhole(buf, block);
      st := cache.Write(no, 0, block);
    }

    /** The disk block that holds block index of a file. */
    method InodeResolveIndex(i: nat, index: nat) returns (st: Status, blockNo: nat)
      requires Valid() && i < |nodes|
      modifies cache, cache.raw, cache.raw.device, cache.lru, cache.hash
      ensures Valid() && cache.view == old(cache.view)
      ensures st == if index < nodes[i].blockCount then Ok else ErrOutOfBounds
      ensures st == Ok ==>
                && index < |FileBlocks(cache.view, nodes[i].Value())|
                && blockNo == FileBlocks(cache.view, nodes[i].Value())[index]
    {
      hide BlockCache.Healthy, BlockBitmap.Used, BlockBitmap.Fits, Flat;
      hide Shaped, Depth, Decode, Reserved, Distinct, Span, FileBlocks;
      var node := nodes[i];
      ghost var n := node.Value();
      assert Sound(cache.view, Files()[i], volume);
      TwoLevels(cache.view, n);
      blockNo := 0;
      if index >= node.blockCount {
        return ErrOutOfBounds, 0;
      }
      var rest;
      st, rest, blockNo := RangeArrayResolveIndex(node.ranges, index);
      if st == Ok {
        return;
      }
      if node.indirect == 0 {
        return ErrOutOfBounds, blockNo;
      }
      st, rest, blockNo := RangeBlockResolveIndirectIndex(node.indirect, rest);
      if st == Ok {
        return;
      }
      st := ErrOutOfBounds;
    }

    lemma NodesApart()
      requires Valid()
      ensures forall i, j :: 0 <= i < j < |nodes| ==> nodes[i] != nodes[j] && nodes[i].ranges != nodes[j].ranges
      ensures forall i :: 0 <= i < |nodes| ==> nodes[i].ranges as object != bitmap.buffer
    {
    }

    lemma Parts()
      requires Valid()
      ensures bitmap.Fits() && 0 < volume.blockSize
    {
    }

    lemma Sizes()
      requires Working()
      ensures 0 < volume.blockSize && Sized(cache.view, volume.blockSize)
    {
      cache.ViewSized();
    }

    lemma UsedInRange()
      requires Working()
      ensures bitmap.Used() <= Span(0, volume.blocks)
    {
    }

    /** Only inode i has changed. */
    twostate lemma OneChanged(i: nat)
      requires Apart() && i < |nodes|
      requires forall j :: 0 <= j < |nodes| && j != i ==> unchanged(nodes[j]) && unchanged(nodes[j].ranges)
      ensures Files() == old(Files())[i := nodes[i].Value()]
    {
    }

    /** Every file has the bytes and the blocks it had, except possibly file i. */
    twostate predicate OthersKept(i: nat)
      reads cache, nodes, set n | n in nodes :: n.ranges
    {
      SameOthers(old(cache.view), old(Files()), cache.view, Files(), i)
    }

    twostate lemma KeepsOthers(i: nat)
      requires i < |nodes| && Files() == old(Files())[i := nodes[i].Value()]
      requires forall j :: 0 <= j < |nodes| && j != i ==>
                 && Owned(cache.view, old(Files())[j]) == Owned(old(cache.view), old(Files())[j])
                 && Content(cache.view, old(Files())[j]) == Content(old(cache.view), old(Files())[j])
      ensures OthersKept(i)
    {
    }

    /** A block for the end of file i has been found and recorded, in the inode or in its indirect block. */
    twostate predicate Attached(i: nat, st: Status, newBlock: nat)
      requires i < |nodes| && bitmap.Fits()
      reads cache, bitmap, bitmap.buffer, nodes[i], nodes[i].ranges
    {
      var n, n', used, used' := old(nodes[i].Value()), nodes[i].Value(), old(bitmap.Used()), bitmap.Used();
      && |cache.view| == |old(cache.view)|
      && st == ExpandStatus(old(cache.view), n, used, volume)
      && (st != Ok ==>
            && n' == n && used' == used + Leaked(n, used, volume)
            && HintAfter(n, used, old(bitmap.hint), bitmap.hint, volume)
            && forall b :: b in used && b < |cache.view| ==> cache.view[b] == old(cache.view)[b])
      && (st == Ok ==>
            && newBlock < volume.blocks && newBlock < |cache.view|
            && n'.blockCount == n.blockCount
            && used' == used + {newBlock} + (if n'.indirect == n.indirect then {} else {n'.indirect})
            && Extends(old(cache.view), cache.view[newBlock := Zeros(volume.blockSize)], n,
                       n'.(blockCount := n.blockCount + 1), newBlock, used, volume)
            && Grew(old(cache.view), n, used, old(bitmap.hint), cache.view[newBlock := Zeros(volume.blockSize)],
                    n'.(blockCount := n.blockCount + 1), newBlock, bitmap.hint, volume))
    }

    /**
     * Takes a free block for ranges and another for data. When there is no other, the first one stays
     * marked used.
     */
    method NewRangeBlock() returns (st: Status, ib: nat, newBlock: nat)
      requires Working()
      modifies cache, cache.raw, cache.raw.device, cache.lru, cache.hash, bitmap`hint, bitmap.buffer
      ensures Working() && |cache.view| == |old(cache.view)|
      ensures st == if 2 <= |FreeBlocks(old(bitmap.Used()), volume.blocks)| then Ok else ErrResourcesExhausted
      ensures var used := old(bitmap.Used());
              st != Ok ==>
                && bitmap.Used() == used + (if |FreeBlocks(used, volume.blocks)| == 1
                                            then FreeBlocks(used, volume.blocks) else {})
                && (FreeBlocks(used, volume.blocks) == {} ==> bitmap.hint == old(bitmap.hint))
                && (forall b :: FreeBlocks(used, volume.blocks) == {b} ==> bitmap.hint == Next(b, volume.blocks))
                && forall b :: b in used && b < |cache.view| ==> cache.view[b] == old(cache.view)[b]
      ensures st == Ok ==>
                && ib < volume.blocks && ib !in old(bitmap.Used()) && newBlock < volume.blocks
                && newBlock !in old(bitmap.Used()) + {ib}
                && bitmap.Used() == old(bitmap.Used()) + {ib} + {newBlock}
                && cache.view == old(cache.view)[ib := cache.view[ib]]
                && Shaped(Decode(cache.view[ib])) && Flat(Decode(cache.view[ib])) == [newBlock]
                && FirstFree(old(bitmap.Used()), volume.blocks, old(bitmap.hint), ib)
                && Appended(Decode(Zeros(volume.blockSize)), old(bitmap.Used()) + {ib}, volume.blocks,
                            Next(ib, volume.blocks), Decode(cache.view[ib]), newBlock, bitmap.hint)
    {
      hide BlockCache.Healthy, BlockBitmap.Used, BlockBitmap.Fits, Flat, Shaped, Decode, HasFree, FreeBlocks;
      hide FirstFree, Next, Appended;
      newBlock := 0;
      ghost var used := bitmap.Used();
      FreeOrNot(used, volume.blocks);
      st, ib := bitmap.FindFreeBlock();
      if st != Ok {
        return;
      }
      IsFree(used, volume.blocks, old(bitmap.hint), ib);
      OneTaken(used, volume.blocks, ib);
      bitmap.MarkUsed(ib);
      st, newBlock := RangeBlockInitialize(ib);
    }

    /** Starts the indirect block of a file whose own ranges are all used. */
    method AttachNewIndirect(i: nat) returns (st: Status, newBlock: nat)
      requires Valid() && i < |nodes| && nodes[i].indirect == 0 && Depth(nodes[i].ranges[..]) == RANGES_IN_INODE
      requires !CanGrow(nodes[i].ranges[..], bitmap.Used(), volume.blocks)
      modifies cache, cache.raw, cache.raw.device, cache.lru, cache.hash, bitmap`hint, bitmap.buffer, nodes[i]
      ensures Working() && Attached(i, st, newBlock) && (st != Ok ==> nodes[i].dirty == old(nodes[i].dirty))
    {
      hide BlockCache.Healthy, BlockBitmap.Used, BlockBitmap.Fits;
      hide Flat, Shaped, Depth, Decode, Reserved, Span, Distinct;
      hide FileBlocks, OwnedSet, Owned, Extends, CanGrow, HasFree, ExpandStatus, Leaked, FreeBlocks;
      hide Grew, Appended, FirstFree, Next, HintAfter;
      newBlock := 0;
      ghost var view, n, used, z := cache.view, nodes[i].Value(), bitmap.Used(), Zeros(volume.blockSize);
      assert Sound(view, Files()[i], volume);
      NewIndirectStatus(view, n, used, volume);
      var ib;
      st, ib, newBlock := NewRangeBlock();
      if st != Ok {
        LeakMovesHint(n, used, old(bitmap.hint), bitmap.hint, volume);
        return;
      }
      nodes[i].indirect := ib;
      nodes[i].dirty := true;
      ExtendNewIndirect(view, n, ib, cache.view[ib], newBlock, z, used, volume);
      GrewNewIndirect(view, n, ib, cache.view[ib], newBlock, z, used, old(bitmap.hint), bitmap.hint, volume);
    }

    method Attach(i: nat) returns (st: Status, newBlock: nat)
      requires Valid() && i < |nodes|
      modifies cache, cache.raw, cache.raw.device, cache.lru, cache.hash, bitmap`hint, bitmap.buffer
      modifies nodes[i], nodes[i].ranges
      ensures Working() && Attached(i, st, newBlock) && (st != Ok ==> nodes[i].dirty == old(nodes[i].dirty))
    {
      hide BlockCache.Healthy, BlockBitmap.Used, BlockBitmap.Fits;
      hide Flat, Shaped, Depth, Decode, Reserved, Span, Distinct;
      hide FileBlocks, OwnedSet, Owned, Extends, HasFree, CanGrow, ExpandStatus, Leaked, FreeBlocks;
      hide Grew, Appended, FirstFree, Next, HintAfter;
      var node := nodes[i];
      ghost var view, n, used, z := cache.view, node.Value(), bitmap.Used(), Zeros(volume.blockSize);
      assert Sound(view, Files()[i], volume);
      DataBlocks(view, Files(), i, used, volume);
      var overflown;
      if node.indirect != 0 {
        IndirectStatus(view, n, used, volume);
        NoLeak(n, used, bitmap.hint, volume);
        st, newBlock, overflown := RangeBlockExpand(node.indirect);
        if st != Ok {
          return;
        }
        if overflown {
          return DoubleIndirectNeeded, 0;
        }
        ExtendIndirect(view, n, cache.view[n.indirect], newBlock, z, used, volume);
        GrewIndirect(view, n, cache.view[n.indirect], newBlock, z, used, old(bitmap.hint), bitmap.hint, volume);
      } else {
        st, newBlock, overflown := RangeArrayExpand(node.ranges, bitmap);
        if st != Ok {
          InlineStatus(view, n, used, volume);
          NoLeak(n, used, bitmap.hint, volume);
          return;
        }
        if overflown {
          OneChanged(i);
          assert Files() == old(Files());
          st, newBlock := AttachNewIndirect(i);
          return;
        }
        InlineStatus(view, n, used, volume);
        ExtendInline(view, n, node.ranges[..], newBlock, z, used, volume);
        GrewInline(view, n, node.ranges[..], newBlock, view[newBlock := z], used, old(bitmap.hint), bitmap.hint,
                   volume);
      }
    }

    ghost function Now(): (s: Snapshot)
      requires bitmap.Fits()
      reads cache, bitmap.buffer, nodes, set n | n in nodes :: n.ranges
    {
      Snapshot(cache.view, Files(), bitmap.Used())
    }

    /**
     * File i has gained a zeroed block at its end: exactly the blocks it gained are newly
     * used. On failure no inode has changed; on exhaustion no free block is left.
     */
    twostate predicate Expanded(i: nat, st: Status, newBlock: nat)
      requires i < |nodes| && bitmap.Fits()
      reads cache, bitmap, bitmap.buffer, nodes, set n | n in nodes :: n.ranges
    {
      var n, n', used, used' := old(nodes[i].Value()), nodes[i].Value(), old(bitmap.Used()), bitmap.Used();
      && OthersKept(i)
      && n'.fileSize == n.fileSize && Content(cache.view, n') == Content(old(cache.view), n)
      && |cache.view| == |old(cache.view)|
      && st == ExpandStatus(old(cache.view), n, used, volume)
      && (st != Ok ==>
            && n' == n && used' == used + Leaked(n, used, volume)
            && HintAfter(n, used, old(bitmap.hint), bitmap.hint, volume)
            && OwnedSet(cache.view, n') == OwnedSet(old(cache.view), n)
            && forall b :: b in used && b < |cache.view| ==> cache.view[b] == old(cache.view)[b])
      && (st == Ok ==>
            && newBlock < |cache.view| && newBlock !in used
            && Grew(old(cache.view), n, used, old(bitmap.hint), cache.view, n', newBlock, bitmap.hint, volume)
            && cache.view[newBlock] == Zeros(volume.blockSize)
            && n'.blockCount == n.blockCount + 1
            && FileBlocks(cache.view, n') == FileBlocks(old(cache.view), n) + [newBlock]
            && used' == used + OwnedSet(cache.view, n')
            && used' == used + {newBlock} + (if n'.indirect == n.indirect then {} else {n'.indirect})
            && OwnedSet(old(cache.view), n) <= OwnedSet(cache.view, n')
            && OwnedSet(cache.view, n') !! used - OwnedSet(old(cache.view), n)
            && Took(old(Now()), Now(), i))
    }

    twostate lemma ExpandFailed(i: nat, new st: Status, new newBlock: nat)
      requires i < |nodes| && Working() && Attached(i, st, newBlock) && st != Ok
      requires old(Owns(cache.view, Files(), bitmap.Used(), volume))
      requires Files() == old(Files())[i := nodes[i].Value()]
      ensures Valid() && Expanded(i, st, newBlock)
    {
      hide BlockCache.Healthy, BlockBitmap.Used, BlockBitmap.Fits, Reserved, Span, Distinct;
      hide FileBlocks, OwnedSet, Owned, HasFree, Content, Sound, Zeros, Owns, Extends, OthersKept, ExpandStatus, Leaked;
      hide Grew, HintAfter;
      UsedInRange();
      Unowned(old(cache.view), cache.view, old(Files()), old(bitmap.Used()), bitmap.Used(), volume);
      assert Files() == old(Files());
      KeepsOthers(i);
    }

    twostate lemma ExpandDone(i: nat, new newBlock: nat)
      requires i < |nodes| && Working() && old(Owns(cache.view, Files(), bitmap.Used(), volume))
      requires Files() == old(Files())[i := nodes[i].Value()]
      requires Extends(old(cache.view), cache.view, old(nodes[i].Value()), nodes[i].Value(), newBlock,
                       old(bitmap.Used()), volume)
      requires bitmap.Used() == old(bitmap.Used()) + {newBlock} +
                 if nodes[i].indirect == old(nodes[i].indirect) then {} else {nodes[i].indirect}
      requires newBlock < |cache.view| && cache.view[newBlock] == Zeros(volume.blockSize)
      requires Sized(old(cache.view), volume.blockSize)
      requires ExpandStatus(old(cache.view), old(nodes[i].Value()), old(bitmap.Used()), volume) == Ok
      requires Grew(old(cache.view), old(nodes[i].Value()), old(bitmap.Used()), old(bitmap.hint),
                    cache.view, nodes[i].Value(), newBlock, bitmap.hint, volume)
      ensures Valid() && Expanded(i, Ok, newBlock)
    {
      hide ExpandStatus, Leaked, Grew, HintAfter;
      hide BlockCache.Healthy, BlockBitmap.Used, BlockBitmap.Fits, Reserved, Span, Distinct, Sized;
      hide FileBlocks, OwnedSet, Owned, HasFree, Content, Sound, Zeros, Owns, OthersKept, Flat, Shaped, Depth, Took;
      var view, files, n', used := old(cache.view), old(Files()), nodes[i].Value(), old(bitmap.Used());
      ExtendedOwnership(view, cache.view, files, i, n', newBlock, used, bitmap.Used(), volume);
      ExtendedContent(view, cache.view, files, i, n', newBlock, used, volume);
      TookExpanding(old(Now()), Now(), i, newBlock, volume);
      KeepsOthers(i);
    }

    /** Zeroes the new block of file i and counts it. */
    method WipeAndCount(i: nat, newBlock: nat) returns (st: Status)
      requires Working() && i < |nodes| && newBlock < |cache.view|
      modifies cache, cache.raw, cache.raw.device, cache.lru, cache.hash, nodes[i]
      ensures Working() && st == Ok && cache.view == old(cache.view)[newBlock := Zeros(volume.blockSize)]
      ensures nodes[i].Value() == old(nodes[i].Value()).(blockCount := old(nodes[i].blockCount) + 1) && nodes[i].dirty
    {
      hide BlockCache.Healthy, BlockBitmap.Used, BlockBitmap.Fits, Zeros;
      st := cache.Wipe(newBlock);
      if st != Ok {
        return;
      }
      nodes[i].blockCount := nodes[i].blockCount + 1;
      nodes[i].dirty := true;
    }

    /** Adds a zeroed block at the end of file i. */
    method InodeExpandBlocks(i: nat) returns (st: Status, newBlock: nat)
      requires Valid() && i < |nodes|
      modifies cache, cache.raw, cache.raw.device, cache.lru, cache.hash, bitmap`hint, bitmap.buffer
      modifies nodes[i], nodes[i].ranges
      ensures Valid() && Expanded(i, st, newBlock) && nodes[i].dirty == (old(nodes[i].dirty) || st == Ok)
    {
      hide BlockCache.Healthy, BlockBitmap.Used, BlockBitmap.Fits;
      hide Owns, Extends, Expanded, Zeros, Sized, ExpandStatus, Leaked, Grew, HintAfter, Took;
      cache.ViewSized();
      st, newBlock := Attach(i);
      if st != Ok {
        OneChanged(i);
        ExpandFailed(i, st, newBlock);
        return;
      }
      st := WipeAndCount(i, newBlock);
      if st != Ok {
        return;
      }
      OneChanged(i);
      ExpandDone(i, newBlock);
    }

    /** How far one access goes: to the end of the block, of the file, or of the request. */
    static function Least(a: nat, b: nat): (r: nat) {
      if b < a then b else a
    }

    /** Reads one chunk of file i. */
    method ReadChunk(i: nat, blockIndex: nat, blockOffset: nat, filePos: nat, remain: nat)
      returns (st: Status, piece: Block)
      requires Valid() && i < |nodes| && Locates(filePos, blockIndex, blockOffset, volume.blockSize)
      requires blockOffset < volume.blockSize && filePos < nodes[i].fileSize
      modifies cache, cache.raw, cache.raw.device, cache.lru, cache.hash
      ensures Valid() && cache.view == old(cache.view) && st == Ok
      ensures |piece| == Least(remain, Least(volume.blockSize - blockOffset, nodes[i].fileSize - filePos))
      ensures PieceAt(Content(cache.view, nodes[i].Value()), filePos, piece)
    {
      hide BlockCache.Healthy, BlockBitmap.Used, BlockBitmap.Fits, Owns, FileBlocks, Content, Sized, Locates;
      ghost var view, files, used := cache.view, Files(), bitmap.Used();
      cache.ViewSized();
      BlockOfPosition(view, files, i, used, volume, filePos, blockIndex, blockOffset);
      var blockNo;
      piece := [];
      st, blockNo := InodeResolveIndex(i, blockIndex);
      if st != Ok {
        return;
      }
      var chunk := Least(remain, Least(volume.blockSize - blockOffset, nodes[i].fileSize - filePos));
      PieceOfContent(view, files, i, used, volume, blockIndex, blockOffset, filePos, chunk);
      st, piece := cache.Read(blockNo, blockOffset, chunk);
    }

    lemma ContentIs(i: nat)
      requires Valid() && i < |nodes|
      ensures 0 < volume.blockSize && |Content(cache.view, nodes[i].Value())| == nodes[i].fileSize
    {
      hide BlockCache.Healthy, BlockBitmap.Used, BlockBitmap.Fits, Owns, Content;
      Sizes();
      ContentSize(cache.view, Files(), i, bitmap.Used(), volume);
    }

    /** Reads up to length bytes of file i from byte pos on, stopping at the end of the file. */
    method InodeReadFileBytes(i: nat, pos: nat, length: nat) returns (st: Status, data: Block)
      requires Valid() && i < |nodes|
      modifies cache, cache.raw, cache.raw.device, cache.lru, cache.hash
      ensures Valid() && cache.view == old(cache.view)
      ensures st == if pos < nodes[i].fileSize then Ok else ErrEndOfFile
      ensures st == Ok ==> data == Slice(Content(cache.view, nodes[i].Value()), pos, length)
    {
      hide Valid, Content, Locates, PieceAt, Slice;
      ContentIs(i);
      var node, size := nodes[i], volume.blockSize;
      data := [];
      if pos >= node.fileSize {
        return ErrEndOfFile, [];
      }
      var filePos, remain := pos, length;
      var blockIndex, blockOffset := LocateStart(pos, size);
      ghost var c := Content(cache.view, node.Value());
      while remain > 0 && filePos < node.fileSize
        invariant Valid() && cache.view == old(cache.view) && Content(cache.view, node.Value()) == c
        invariant pos <= filePos <= |c| && 0 <= remain && filePos + remain == pos + length && data == c[pos..filePos]
        invariant 0 <= blockIndex && 0 <= blockOffset < size && Locates(filePos, blockIndex, blockOffset, size)
        decreases remain
      {
        var piece;
        st, piece := ReadChunk(i, blockIndex, blockOffset, filePos, remain);
        if st != Ok {
          return;
        }
        LocateNext(filePos, blockIndex, blockOffset, size, |piece|);
        NextPiece(c, pos, filePos, piece);
        data := data + piece;
        remain := remain - |piece|;
        filePos := filePos + |piece|;
        blockOffset := blockOffset + |piece|;
        if blockOffset == size {
          blockIndex := blockIndex + 1;
          blockOffset := 0;
        }
      }
      SliceIs(c, pos, length, filePos);
      st := Ok;
    }

    lemma NowIs(i: nat)
      requires Valid() && i < |nodes|
      ensures i < |Now().files| && Now().files[i] == nodes[i].Value()
      ensures |Bytes(Now(), i)| == nodes[i].fileSize
    {
      Sizes();
      ContentSize(cache.view, Files(), i, bitmap.Used(), volume);
    }

    lemma SoundAt(i: nat)
      requires Valid() && i < |nodes|
      ensures Sound(cache.view, nodes[i].Value(), volume) && 0 in bitmap.Used() && volume.blocks <= U32
    {
      assert Sound(cache.view, Files()[i], volume);
    }

    /** Nothing has changed, but for a block that a failed expansion of file i left used. */
    twostate predicate Unchanged(i: nat)
      requires i < |nodes| && bitmap.Fits()
      reads cache, bitmap.buffer, nodes, set n | n in nodes :: n.ranges
    {
      && Files() == old(Files())
      && bitmap.Used() == old(bitmap.Used()) + Leaked(old(nodes[i].Value()), old(bitmap.Used()), volume)
      && |cache.view| == |old(cache.view)|
      && forall b :: b in old(bitmap.Used()) && b < |cache.view| ==> cache.view[b] == old(cache.view)[b]
    }

    /** The block of file i at position blockIndex, which may be a new one at the end. */
    method BlockForWriting(i: nat, blockIndex: nat, ghost filePos: nat, ghost blockOffset: nat)
      returns (st: Status, blockNo: nat)
      requires Valid() && i < |nodes|
      requires Locates(filePos, blockIndex, blockOffset, volume.blockSize) && filePos <= nodes[i].fileSize
      modifies cache, cache.raw, cache.raw.device, cache.lru, cache.hash, bitmap`hint, bitmap.buffer
      modifies nodes[i], nodes[i].ranges
      ensures Valid() && OthersKept(i) && nodes[i].fileSize == old(nodes[i].fileSize)
      ensures Content(cache.view, nodes[i].Value()) == old(Content(cache.view, nodes[i].Value()))
      ensures old(bitmap.Used()) <= bitmap.Used()
      ensures st == Ok || st == DoubleIndirectNeeded
              || (st == ErrResourcesExhausted && !HasFree(bitmap.Used(), volume.blocks))
      ensures st == Ok ==>
                && blockIndex < |FileBlocks(cache.view, nodes[i].Value())|
                && blockNo == FileBlocks(cache.view, nodes[i].Value())[blockIndex]
      ensures st != Ok ==> filePos == nodes[i].fileSize
      ensures blockIndex < old(nodes[i].blockCount) ==>
                && st == Ok && nodes[i].Value() == old(nodes[i].Value()) && nodes[i].dirty == old(nodes[i].dirty)
                && cache.view == old(cache.view) && bitmap.Used() == old(bitmap.Used())
      ensures blockIndex >= old(nodes[i].blockCount) ==>
                && st == ExpandStatus(old(cache.view), old(nodes[i].Value()), old(bitmap.Used()), volume)
                && nodes[i].dirty == (old(nodes[i].dirty) || st == Ok)
                && (st != Ok ==> nodes[i].Value() == old(nodes[i].Value()) && Unchanged(i))
      ensures st == Ok ==> NoFewer(old(Now()), Now(), i, volume)
    {
      hide BlockCache.Healthy, BlockBitmap.Used, BlockBitmap.Fits;
      hide Owns, FileBlocks, Content, Locates, Owned, OwnedSet, HasFree;
      hide ExpandStatus, Leaked, Grew, HintAfter, Space, Took;
      ghost var n := nodes[i].Value();
      BlockOfPosition(cache.view, Files(), i, bitmap.Used(), volume, filePos, blockIndex, blockOffset);
      if blockIndex >= nodes[i].blockCount {
        ExpandStatuses(cache.view, n, bitmap.Used(), volume);
        ghost var view, used, hint := cache.view, bitmap.Used(), bitmap.hint;
        SoundAt(i);
        st, blockNo := InodeExpandBlocks(i);
        if st == Ok {
          SpaceLeft(view, n, used, hint, cache.view, nodes[i].Value(), blockNo, bitmap.hint, volume);
        }
      } else {
        NoFewerSelf(Now(), i, volume);
        st, blockNo := InodeResolveIndex(i, blockIndex);
      }
    }

    /** Puts the piece into block blockNo of file i, and moves the end of the file if need be. */
    method PutPiece(i: nat, blockIndex: nat, blockOffset: nat, filePos: nat, blockNo: nat, piece: Block, atEof: bool)
      returns (st: Status)
      requires Valid() && i < |nodes|
      requires Locates(filePos, blockIndex, blockOffset, volume.blockSize) && blockOffset + |piece| <= volume.blockSize
      requires blockIndex < |FileBlocks(cache.view, nodes[i].Value())|
      requires blockNo == FileBlocks(cache.view, nodes[i].Value())[blockIndex]
      requires if atEof then filePos == nodes[i].fileSize else filePos + |piece| <= nodes[i].fileSize
      modifies cache, cache.raw, cache.raw.device, cache.lru, cache.hash, nodes[i]
      ensures Valid() && st == Ok && Wrote(old(Now()), Now(), i, filePos, piece)
      ensures nodes[i].dirty == old(nodes[i].dirty)
      ensures bitmap.Used() == old(bitmap.Used())
      ensures nodes[i].Value() == Reaching(old(nodes[i].Value()), filePos + |piece|)
      ensures Indirect(cache.view, nodes[i].Value()) == old(Indirect(cache.view, nodes[i].Value()))
      ensures blockNo < |cache.view| == |old(cache.view)|
      ensures cache.view == old(cache.view)[blockNo := cache.view[blockNo]]
      ensures blockNo in old(OwnedSet(cache.view, nodes[i].Value()))
    {
      hide BlockCache.Healthy, BlockBitmap.Used, BlockBitmap.Fits;
      hide Owns, FileBlocks, Content, Locates, Owned, OwnedSet, Splice;
      hide Overwrite, Sized, BlockCache.Valid, BlockCache.Spilled, Indirect;
      ghost var view, files, used := cache.view, Files(), bitmap.Used();
      Sizes();
      PieceOfContent(view, files, i, used, volume, blockIndex, blockOffset, filePos, 0);
      DataBlocks(view, files, i, used, volume);
      ChunkContent(view, files, i, used, volume, blockIndex, blockOffset, filePos, blockNo, piece);
      st := cache.Write(blockNo, blockOffset, piece);
      if st != Ok {
        return;
      }
      if atEof {
        nodes[i].fileSize := nodes[i].fileSize + |piece|;
      }
      OneChanged(i);
      assert nodes[i].Value() == Reaching(files[i], filePos + |piece|);
      KeepsOthers(i);
      Sizes();
      ContentSize(cache.view, Files(), i, bitmap.Used(), volume);
    }

    method MarkInode(i: nat, dirty: bool)
      requires i < |nodes|
      modifies nodes[i]
      ensures nodes[i].dirty == dirty && Files() == old(Files()) && nodes[i].Value() == old(nodes[i].Value())
      ensures old(Valid()) ==> Valid() && Now() == old(Now())
    {
      hide Owns, BlockCache.Healthy, BlockBitmap.Used, BlockBitmap.Fits;
      nodes[i].dirty := dirty;
      assert forall j :: 0 <= j < |nodes| ==> nodes[j].Value() == old(nodes[j].Value());
      assert Files() == old(Files());
    }

    /** A chunk inside the blocks of file i: it fits, and changes the size and the bytes only. */
    twostate predicate InPlace(i: nat, blockIndex: nat, st: Status, filePos: nat, chunk: nat)
      requires i < |nodes| && bitmap.Fits()
      reads cache, bitmap.buffer, nodes, set n | n in nodes :: n.ranges
    {
      blockIndex < old(nodes[i].blockCount) ==>
        && st == Ok && SameShape(old(Now()), Now(), i) && nodes[i].dirty == old(nodes[i].dirty)
        && nodes[i].fileSize == if filePos + chunk <= old(nodes[i].fileSize) then old(nodes[i].fileSize)
            else filePos + chunk
    }

    /** A chunk behind the blocks of file i: it fits if a block can be added, which marks the inode dirty. */
    twostate predicate AtEnd(i: nat, blockIndex: nat, st: Status, filePos: nat)
      requires i < |nodes| && bitmap.Fits()
      reads cache, bitmap.buffer, nodes, set n | n in nodes :: n.ranges
    {
      blockIndex >= old(nodes[i].blockCount) ==>
        && filePos == Capacity(old(nodes[i].Value()), volume)
        && st == ExpandStatus(old(cache.view), old(nodes[i].Value()), old(bitmap.Used()), volume)
        && nodes[i].dirty == (old(nodes[i].dirty) || st == Ok)
        && (st != Ok ==> nodes[i].Value() == old(nodes[i].Value()))
    }

    /** Writes as much of buf as fits up to the end of the block, or of the file if that comes first. */
    method WriteChunk(i: nat, blockIndex: nat, blockOffset: nat, filePos: nat, buf: Block)
      returns (st: Status, chunk: nat)
      requires Valid() && i < |nodes| && buf != []
      requires Locates(filePos, blockIndex, blockOffset, volume.blockSize) && blockOffset < volume.blockSize
      requires filePos <= nodes[i].fileSize
      modifies cache, cache.raw, cache.raw.device, cache.lru, cache.hash, bitmap`hint, bitmap.buffer
      modifies nodes[i], nodes[i].ranges
      ensures Valid() && chunk <= |buf| && Wrote(old(Now()), Now(), i, filePos, buf[..chunk])
      ensures st == Ok || st == DoubleIndirectNeeded
              || (st == ErrResourcesExhausted && !HasFree(bitmap.Used(), volume.blocks))
      ensures if st == Ok then 0 < chunk && blockOffset + chunk <= volume.blockSize else chunk == 0
      ensures st != Ok ==> filePos == old(nodes[i].fileSize)
      ensures InPlace(i, blockIndex, st, filePos, chunk) && AtEnd(i, blockIndex, st, filePos)
      ensures if st == Ok then NoFewer(old(Now()), Now(), i, volume) else StoppedAt(old(Now()), Now(), i, st, volume)
    {
      hide BlockCache.Healthy, BlockBitmap.Used, BlockBitmap.Fits;
      hide Owns, FileBlocks, Content, Locates, Owned, OwnedSet, Splice;
      hide Overwrite, Sized, SameOthers, ExpandStatus, Indirect, Capacity, NoFewer, Leaked;
      BlockOfPosition(cache.view, Files(), i, bitmap.Used(), volume, filePos, blockIndex, blockOffset);
      if blockIndex >= nodes[i].blockCount {
        AtCapacity(nodes[i].Value(), volume, filePos, blockIndex, blockOffset);
      }
      ghost var view, files := cache.view, Files();
      Sizes();
      ContentSize(view, files, i, bitmap.Used(), volume);
      OverwriteNothing(Content(view, files[i]), filePos);
      var atEof := filePos >= nodes[i].fileSize;
      var blockNo;
      chunk := 0;
      st, blockNo := BlockForWriting(i, blockIndex, filePos, blockOffset);
      if st != Ok {
        assert buf[..0] == [];
        return;
      }
      ghost var viewM, filesM, middle := cache.view, Files(), Now();
      var tillBlockEnd, tillFileEnd := volume.blockSize - blockOffset, nodes[i].fileSize - filePos;
      var most := if atEof then tillBlockEnd else Least(tillBlockEnd, tillFileEnd);
      chunk := Least(|buf|, most);
      st := PutPiece(i, blockIndex, blockOffset, filePos, blockNo, buf[..chunk], atEof);
      SameOthersTwice(view, files, viewM, filesM, cache.view, Files(), i);
      SameShapeNoFewer(middle, Now(), i, blockNo, volume);
      NoFewerTwice(old(Now()), middle, Now(), i, volume);
    }

    /** What a chunk does to the progress of a write. */
    twostate lemma Advance(i: nat, new blockIndex: nat, new st: Status, new filePos: nat, new chunk: nat,
                           new start: Snapshot, new dirty: bool)
      requires i < |nodes| && old(Valid()) && Valid() && InPlace(i, blockIndex, st, filePos, chunk)
      requires AtEnd(i, blockIndex, st, filePos)
      requires Progress(start, dirty, old(Now()), old(nodes[i].dirty), i, filePos, volume)
      requires filePos <= old(nodes[i].fileSize)
      requires if st == Ok then 0 < chunk else filePos == old(nodes[i].fileSize)
      ensures st == Ok ==> Progress(start, dirty, Now(), nodes[i].dirty, i, filePos + chunk, volume)
      ensures st != Ok ==> Halted(start, dirty, nodes[i].Value(), nodes[i].dirty, i, st, filePos, volume)
    {
      hide BlockCache.Healthy, BlockBitmap.Used, BlockBitmap.Fits, Owns, ExpandStatus, Indirect, Capacity;
      if blockIndex < old(nodes[i].blockCount) {
        ProgressInside(start, dirty, old(Now()), old(nodes[i].dirty), Now(), i, filePos, chunk, volume);
      } else {
        ProgressAtEnd(start, dirty, old(Now()), old(nodes[i].dirty), i, filePos, volume);
      }
    }

    lemma FitsInBlocks(i: nat)
      requires Valid() && i < |nodes|
      ensures nodes[i].fileSize <= Capacity(nodes[i].Value(), volume)
    {
      hide BlockCache.Healthy, BlockBitmap.Used, BlockBitmap.Fits, Owns;
      WithinCapacity(cache.view, Files(), i, bitmap.Used(), volume);
    }

    /** One chunk of a write of data at byte p that began at moment start, when written bytes are done. */
    method WriteNext(i: nat, blockIndex: nat, blockOffset: nat, filePos: nat, data: Block, written: nat,
                     ghost start: Snapshot, ghost dirty: bool, ghost p: nat)
      returns (st: Status, chunk: nat)
      requires Valid() && i < |nodes| && written < |data| && filePos == p + written
      requires Locates(filePos, blockIndex, blockOffset, volume.blockSize) && blockOffset < volume.blockSize
      requires Writing(start, dirty, Now(), nodes[i].dirty, i, p, data, written, volume)
      modifies cache, cache.raw, cache.raw.device, cache.lru, cache.hash, bitmap`hint, bitmap.buffer
      modifies nodes[i], nodes[i].ranges
      ensures Valid() && written + chunk <= |data|
      ensures st == Ok || st == DoubleIndirectNeeded
              || (st == ErrResourcesExhausted && !HasFree(bitmap.Used(), volume.blocks))
      ensures st == Ok ==>
                && 0 < chunk && blockOffset + chunk <= volume.blockSize
                && Writing(start, dirty, Now(), nodes[i].dirty, i, p, data, written + chunk, volume)
      ensures st != Ok ==>
                && Ended(start, Now(), old(Now()), i, p, data, st, written, volume)
                && nodes[i].dirty == (dirty || !Stuck(start, i, p + |data|, volume))
    {
      hide Valid, Now, BlockBitmap.Used, Locates, HasFree, Wrote, Bytes, Progress, Halted, InPlace, AtEnd;
      hide NoFewer, StoppedAt, Ended, Stuck;
      Parts();
      ghost var before := Now();
      NowIs(i);
      FitsInBlocks(i);
      label L:
      st, chunk := WriteChunk(i, blockIndex, blockOffset, filePos, data[written..]);
      assert data[..written] + data[written..][..chunk] == data[..written + chunk];
      WroteTwice(start, before, Now(), i, p, data[..written], data[written..][..chunk]);
      NowIs(i);
      Advance@L(i, blockIndex, st, filePos, chunk, start, dirty);
      if st == Ok {
        NoFewerTwice(start, before, Now(), i, volume);
      } else {
        EndsStopped(start, dirty, Now(), nodes[i].dirty, before, i, p, data, st, written, volume);
      }
    }

    /** Writes data chunk by chunk from byte p on. The inode is left unmarked unless it gained a block. */
    method WriteChunks(i: nat, p: nat, data: Block) returns (st: Status, written: nat, ghost at: Snapshot)
      requires Valid() && i < |nodes| && p <= nodes[i].fileSize
      modifies cache, cache.raw, cache.raw.device, cache.lru, cache.hash, bitmap`hint, bitmap.buffer
      modifies nodes[i], nodes[i].ranges
      ensures Valid() && Ended(old(Now()), Now(), at, i, p, data, st, written, volume)
      ensures st == Ok || st == DoubleIndirectNeeded
              || (st == ErrResourcesExhausted && !HasFree(bitmap.Used(), volume.blocks))
      ensures data == [] ==> nodes[i].Value() == old(nodes[i].Value()) && nodes[i].dirty == old(nodes[i].dirty)
      ensures Marking(old(Now()), old(nodes[i].dirty), nodes[i].dirty, i, p + |data|, st, volume)
    {
      hide Valid, Now, BlockBitmap.Used, Locates, HasFree, Writing, Ended, Stuck;
      Parts();
      var size := volume.blockSize;
      ghost var start, dirty := Now(), nodes[i].dirty;
      at := start;
      NowIs(i);
      FitsInBlocks(i);
      WritingStarts(start, dirty, i, p, data, volume);
      var filePos := p;
      var blockIndex, blockOffset := LocateStart(p, size);
      written := 0;
      while written < |data|
        invariant Valid() && written <= |data| && filePos == p + written
        invariant 0 <= blockIndex && 0 <= blockOffset < size && Locates(filePos, blockIndex, blockOffset, size)
        invariant Writing(start, dirty, Now(), nodes[i].dirty, i, p, data, written, volume)
        invariant written == 0 ==> nodes[i].dirty == dirty && Now() == start
        decreases |data| - written
      {
        at := Now();
        var chunk;
        st, chunk := WriteNext(i, blockIndex, blockOffset, filePos, data, written, start, dirty, p);
        if st != Ok {
          return;
        }
        LocateNext(filePos, blockIndex, blockOffset, size, chunk);
        written := written + chunk;
        filePos := filePos + chunk;
        blockOffset := blockOffset + chunk;
        if blockOffset == size {
          blockIndex := blockIndex + 1;
          blockOffset := 0;
        }
      }
      FitsInBlocks(i);
      NowIs(i);
      EndsWell(start, dirty, Now(), nodes[i].dirty, at, i, p, data, volume);
      st := Ok;
    }

    /**
     * Writes data into file i at byte pos, or at its end if pos is beyond it. When blocks run
     * out, what was written before stays written; at is the moment before the block that could not be had.
     */
    method InodeWriteFileBytes(i: nat, pos: nat, data: Block) returns (st: Status, written: nat, ghost at: Snapshot)
      requires Valid() && i < |nodes| && Least(pos, nodes[i].fileSize) + |data| < U32
      modifies cache, cache.raw, cache.raw.device, cache.lru, cache.hash, bitmap`hint, bitmap.buffer
      modifies nodes[i], nodes[i].ranges
      ensures Valid() && Ended(old(Now()), Now(), at, i, Least(pos, old(nodes[i].fileSize)), data, st, written, volume)
      ensures st == Ok || st == DoubleIndirectNeeded
              || (st == ErrResourcesExhausted && !HasFree(bitmap.Used(), volume.blocks))
      ensures data == [] ==> nodes[i].Value() == old(nodes[i].Value())
      ensures var stuck := Stuck(old(Now()), i, Least(pos, old(nodes[i].fileSize)) + |data|, volume);
              nodes[i].dirty == (old(nodes[i].dirty) || (data != [] && !stuck))
    {
      hide Valid, Now, BlockBitmap.Used, HasFree, Stuck, Wrote, StoppedAt, Covers, Capacity, ExpandStatus, Took;
      Parts();
      var filePos := if pos > nodes[i].fileSize then nodes[i].fileSize else pos;
      st, written, at := WriteChunks(i, filePos, data);
      if st == Ok && written > 0 {
        MarkInode(i, true);
      }
    }

    /** Frees the indirect block of file i and the blocks it lists. */
    method ReleaseIndirect(i: nat) returns (st: Status)
      requires Working() && i < |nodes|
      requires nodes[i].indirect < |cache.view| && Shaped(Decode(cache.view[nodes[i].indirect]))
      modifies cache, cache.raw, cache.raw.device, cache.lru, cache.hash, bitmap.buffer, nodes[i]
      ensures Matched() && Apart() && cache.Healthy() && bitmap.Valid() && st == Ok && cache.view == old(cache.view)
      ensures bitmap.Used() ==
                old(bitmap.Used()) - Elems(Flat(Decode(cache.view[old(nodes[i].indirect)]))) - {old(nodes[i].indirect)}
      ensures nodes[i].indirect == 0 && nodes[i].double == old(nodes[i].double)
    {
      hide BlockCache.Healthy, BlockBitmap.Used, BlockBitmap.Fits, Flat, Shaped, Decode;
      var buf;
      st, buf := cache.Read(nodes[i].indirect, 0, volume.blockSize);
      if st != Ok {
        return;
      }
      assert buf == cache.view[nodes[i].indirect];
      var arr := ToArray(buf);
      RangeArrayReleaseBlocks(arr, bitmap);
      bitmap.MarkFree(nodes[i].indirect);
      nodes[i].indirect := 0;
    }

    lemma InodeShape(i: nat)
      requires Valid() && i < |nodes|
      ensures var n := nodes[i].Value();
              && Shaped(n.ranges) && n.double == 0 && n.indirect < |cache.view|
              && (n.indirect != 0 ==> Shaped(Decode(cache.view[n.indirect])))
    {
      assert Sound(cache.view, Files()[i], volume);
    }

    /** Frees all blocks of file i. */
    method ReleaseAll(i: nat) returns (st: Status)
      requires Valid() && i < |nodes|
      modifies cache, cache.raw, cache.raw.device, cache.lru, cache.hash, bitmap.buffer
      modifies nodes[i], nodes[i].ranges
      ensures Matched() && Apart() && cache.Healthy() && bitmap.Valid() && st == Ok && cache.view == old(cache.view)
      ensures bitmap.Used() == old(bitmap.Used()) - old(OwnedSet(cache.view, nodes[i].Value()))
      ensures nodes[i].indirect == 0 && nodes[i].double == 0
      ensures Flat(nodes[i].ranges[..]) == [] && Shaped(nodes[i].ranges[..])
    {
      hide BlockCache.Healthy, BlockBitmap.Used, BlockBitmap.Fits, Flat, Shaped, Decode, Depth;
      hide Owns, OwnedSet, Elems;
      ghost var used, own := bitmap.Used(), OwnedSet(cache.view, nodes[i].Value());
      InodeShape(i);
      OwnedParts(cache.view, nodes[i].Value());
      if nodes[i].indirect != 0 {
        st := ReleaseIndirect(i);
        if st != Ok {
          return;
        }
      }
      RangeArrayReleaseBlocks(nodes[i].ranges, bitmap);
      assert bitmap.Used() == used - own;
      st := Ok;
    }

    twostate lemma TruncateDone(i: nat)
      requires Matched() && Apart() && cache.Healthy() && bitmap.Valid() && cache.view == old(cache.view)
      requires i < |nodes| && old(Owns(cache.view, Files(), bitmap.Used(), volume))
      requires Files() == old(Files())[i := nodes[i].Value()] && Blank(nodes[i].Value())
      requires bitmap.Used() == old(bitmap.Used()) - old(OwnedSet(cache.view, nodes[i].Value()))
      ensures Valid() && OthersKept(i) && Owned(cache.view, nodes[i].Value()) == []
    {
      hide BlockCache.Healthy, BlockBitmap.Used, BlockBitmap.Fits;
      hide Blank, Owns, Owned, OwnedSet, Content, SameOthers, Span;
      Truncated(cache.view, old(Files()), i, nodes[i].Value(), old(bitmap.Used()), volume);
      ReservedUsed(cache.view, Files(), bitmap.Used(), volume);
      KeepsOthers(i);
    }

    /** Frees all blocks of file i and empties it. */
    method InodeTruncateFileBytes(i: nat) returns (st: Status)
      requires Valid() && i < |nodes|
      modifies cache, cache.raw, cache.raw.device, cache.lru, cache.hash, bitmap.buffer
      modifies nodes[i], nodes[i].ranges
      ensures Valid() && st == Ok && cache.view == old(cache.view) && OthersKept(i)
      ensures Blank(nodes[i].Value()) && Owned(cache.view, nodes[i].Value()) == [] && nodes[i].dirty
      ensures bitmap.Used() == old(bitmap.Used()) - old(OwnedSet(cache.view, nodes[i].Value()))
    {
      hide BlockCache.Healthy, BlockBitmap.Used, BlockBitmap.Fits, Flat, Shaped, Owns, Owned, OwnedSet, OthersKept;
      st := ReleaseAll(i);
      if st != Ok {
        return;
      }
      nodes[i].blockCount, nodes[i].fileSize, nodes[i].dirty := 0, 0, true;
      OneChanged(i);
      TruncateDone(i);
    }
  }
}
