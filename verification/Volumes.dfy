/** Making, syncing and remounting a volume. */
module Volumes {
  import opened Common
  import opened SectorDevices
  import opened RawBlocks
  import opened BlockCaches
  import opened Bitmaps
  import opened RangeCodec
  import opened FileLayout
  import opened FileSteps
  import opened Files
  import opened Superblocks

  /** Inodes in memory with given values. */
  method Inodes(values: seq<Inode>) returns (nodes: seq<CachedInode>)
    requires forall i :: 0 <= i < |values| ==> |values[i].ranges| == RANGES_IN_INODE
    ensures |nodes| == |values|
    ensures forall i :: 0 <= i < |nodes| ==> fresh(nodes[i]) && fresh(nodes[i].ranges) && nodes[i].Value() == values[i]
    ensures forall i :: 0 <= i < |nodes| ==> nodes[i].ranges.Length == RANGES_IN_INODE && !nodes[i].dirty
    ensures forall i, j :: 0 <= i < j < |nodes| ==> nodes[i] != nodes[j] && nodes[i].ranges != nodes[j].ranges
  {
    nodes := [];
    for k := 0 to |values|
      invariant |nodes| == k
      invariant forall i :: 0 <= i < k ==> fresh(nodes[i]) && fresh(nodes[i].ranges) && nodes[i].Value() == values[i]
      invariant forall i :: 0 <= i < k ==> nodes[i].ranges.Length == RANGES_IN_INODE && !nodes[i].dirty
      invariant forall i, j :: 0 <= i < j < k ==> nodes[i] != nodes[j] && nodes[i].ranges != nodes[j].ranges
    {
      var n := new CachedInode();
      n.fileSize, n.blockCount, n.indirect, n.double := values[k].fileSize, values[k].blockCount, values[k].indirect,
          values[k].double;
      forall i | 0 <= i < RANGES_IN_INODE {
        n.ranges[i] := values[k].ranges[i];
      }
      assert n.ranges[..] == values[k].ranges;
      nodes := nodes + [n];
    }
  }

  /** A volume without data blocks: only its own blocks are used. */
  lemma EmptyVolume(view: seq<Block>, files: seq<Inode>, v: Volume)
    requires forall i :: 0 <= i < |files| ==> Blank(files[i])
    requires 0 < v.blocks <= |view| && v.bitmapFirst + v.bitmapCount <= v.blocks
    ensures Owns(view, files, Reserved(v), v)
  {
    forall i | 0 <= i < |files|
      ensures Sound(view, files[i], v) && OwnedSet(view, files[i]) == {}
    {
      assert Owned(view, files[i]) == [];
    }
  }

  /** Marks the blocks of the volume itself, as far as the device has them. */
  method MarkReserved(bitmap: BlockBitmap, v: Volume)
    requires bitmap.Valid() && bitmap.Used() == {} && bitmap.blocksInDevice == v.blocks
    modifies bitmap.buffer
    ensures bitmap.Valid() && bitmap.Used() == Reserved(v) * Span(0, v.blocks)
  {
    hide BlockBitmap.Used, BlockBitmap.Fits;
    bitmap.MarkUsed(0);
    for i := 0 to v.bitmapCount
      invariant bitmap.Valid() && bitmap.Used() == ({0} + Span(v.bitmapFirst, i)) * Span(0, v.blocks)
    {
      bitmap.MarkUsed(v.bitmapFirst + i);
    }
  }

  /** Writes the superblock and the bitmap through the cache, then flushes the cache. */
  method WriteOut(cache: BlockCache, bitmap: BlockBitmap, sb: Block) returns (st: Status)
    requires bitmap.Fits() && bitmap.Suits(cache) && 0 < |cache.view|
    requires |sb| == SUPERBLOCK_SIZE <= cache.raw.blockSize
    requires 0 < bitmap.firstBlock
    modifies cache, cache.raw, cache.raw.device, cache.lru, cache.hash
    ensures cache.Healthy() && st == Ok && |cache.view| == |old(cache.view)|
    ensures cache.raw.disk == cache.view
    ensures bitmap.Stored(cache.view, bitmap.sizeInBlocks)
    ensures |cache.view[0]| == cache.raw.blockSize && cache.view[0][..SUPERBLOCK_SIZE] == sb
    ensures forall b :: 0 < b < |cache.view| && !(bitmap.firstBlock <= b < bitmap.firstBlock + bitmap.sizeInBlocks) ==>
              cache.view[b] == old(cache.view)[b]
  {
    hide BlockCache.Valid, BlockCache.Resident, BlockBitmap.Image;
    st := cache.Write(0, 0, sb);
    if st != Ok {
      return;
    }
    st := bitmap.Save(cache);
    if st != Ok {
      return;
    }
    st := cache.Flush();
  }

  /** The layout of the volume that would be made, if any. */
  function Planned(sectorSize: nat, sectorCount: nat, desired: nat): (v: Option<Volume>)
    requires 0 < sectorSize
  {
    match ChooseBlockSize(sectorSize, sectorCount, desired)
    case None => None
    case Some(size) => if size == 0 then None else Some(PopulateSuperblock(sectorSize, sectorCount, size))
  }

  /** Everything on the device is as the mounted volume sees it. */
  ghost predicate OnDevice(m: Mounted, sb: Block)
    reads m.cache, m.cache.raw, m.bitmap.buffer
  {
    && m.bitmap.Fits() && m.bitmap.firstBlock + m.bitmap.sizeInBlocks <= |m.cache.view|
    && m.cache.raw.disk == m.cache.view
    && m.bitmap.Stored(m.cache.view, m.bitmap.sizeInBlocks)
    && 0 < |m.cache.view| && |sb| <= |m.cache.view[0]| && m.cache.view[0][..|sb|] == sb
  }

  lemma RangesInInodes(view: seq<Block>, files: seq<Inode>, used: set<nat>, v: Volume)
    requires Owns(view, files, used, v)
    ensures forall i :: 0 <= i < |files| ==> |files[i].ranges| == RANGES_IN_INODE
  {
    assert forall i :: 0 <= i < |files| ==> Sound(view, files[i], v);
  }

  /** Puts a volume together, with inodes of given values. */
  method Assemble(v: Volume, cache: BlockCache, bitmap: BlockBitmap, values: seq<Inode>) returns (m: Mounted)
    requires cache.Healthy() && bitmap.Valid() && v.blocks <= |cache.view|
    requires bitmap.blocksInDevice == v.blocks < U32 && bitmap.blockSize == cache.raw.blockSize == v.blockSize
    requires bitmap.firstBlock == v.bitmapFirst && bitmap.sizeInBlocks == v.bitmapCount
    requires RANGE_SIZE <= v.blockSize < U32
    requires Owns(cache.view, values, bitmap.Used(), v)
    ensures fresh(m) && m.Valid() && m.Files() == values
    ensures m.cache == cache && m.bitmap == bitmap && m.volume == v
    ensures forall i :: 0 <= i < |m.nodes| ==> fresh(m.nodes[i]) && fresh(m.nodes[i].ranges) && !m.nodes[i].dirty
  {
    hide BlockCache.Healthy, BlockBitmap.Used, Owns;
    ReservedUsed(cache.view, values, bitmap.Used(), v);
    RangesInInodes(cache.view, values, bitmap.Used(), v);
    var nodes := Inodes(values);
    m := new Mounted(v, cache, bitmap, nodes);
    assert m.Files() == values;
  }

  /** A volume of empty inodes over a bitmap with the blocks of the volume itself. */
  method EmptyMounted(v: Volume, cache: BlockCache, bitmap: BlockBitmap, inodes: nat) returns (m: Mounted)
    requires cache.Healthy() && bitmap.Valid() && v.blocks <= |cache.view| && bitmap.Used() == Reserved(v)
    requires bitmap.blocksInDevice == v.blocks < U32 && bitmap.blockSize == cache.raw.blockSize == v.blockSize
    requires bitmap.firstBlock == v.bitmapFirst && bitmap.sizeInBlocks == v.bitmapCount
    requires RANGE_SIZE <= v.blockSize < U32 && 0 < v.blocks && v.bitmapFirst + v.bitmapCount <= v.blocks
    ensures fresh(m) && m.Valid() && m.cache == cache && m.bitmap == bitmap && m.volume == v && |m.nodes| == inodes
    ensures forall i :: 0 <= i < inodes ==> m.nodes[i].Value() == EMPTY_INODE && !m.nodes[i].dirty
  {
    hide BlockCache.Healthy, BlockBitmap.Used, Owns, Reserved, Blank;
    EmptyIsBlank();
    var values := seq(inodes, _ => EMPTY_INODE);
    EmptyVolume(cache.view, values, v);
    m := Assemble(v, cache, bitmap, values);
  }

  lemma ReservedInside(v: Volume)
    requires 0 < v.blocks && v.bitmapFirst + v.bitmapCount <= v.blocks
    ensures Reserved(v) * Span(0, v.blocks) == Reserved(v)
  {
  }

  /** The layout that a new volume gets. */
  ghost predicate IsLayout(device: SectorDevice, v: Volume) {
    && 0 < device.sectorSize <= v.blockSize <= 4096 && v.blockSize % device.sectorSize == 0
    && v.blocks == device.sectorCount / (v.blockSize / device.sectorSize) <= device.sectorCount < U32
    && v.bitmapFirst == 1 && CeilDiv(v.blocks, 8) <= v.bitmapCount * v.blockSize
    && (1 + v.bitmapCount <= v.blocks <==> 2 <= v.blocks) && (v.blocks == 1 ==> v.bitmapCount == 1)
  }

  /** Block 0 of the device begins with the superblock, and the device is otherwise as before. */
  twostate predicate OnlySuperblock(device: SectorDevice, perBlock: nat, sb: Block)
    reads device
  {
    && |device.sectors| == |old(device.sectors)|
    && |sb| <= |old(BlockAt(device.sectors, perBlock, 0))|
    && BlockAt(device.sectors, perBlock, 0) == Splice(old(BlockAt(device.sectors, perBlock, 0)), 0, sb)
    && forall k :: perBlock <= k < |device.sectors| ==> device.sectors[k] == old(device.sectors)[k]
  }

  /** What a failed attempt does to the device: the superblock gets there when the only slot is needed for block 1. */
  twostate predicate Failed(device: SectorDevice, v: Volume, slots: nat, sb: Block)
    requires 0 < device.sectorSize
    reads device
  {
    if v.blocks == 1 && SUPERBLOCK_SIZE <= v.blockSize && slots == 1
    then OnlySuperblock(device, v.blockSize / device.sectorSize, sb)
    else device.sectors == old(device.sectors)
  }

  /** The first write through a new cache stays there. */
  method PutSuperblock(cache: BlockCache, sb: Block) returns (st: Status)
    requires cache.Healthy() && cache.history == [] && |sb| == SUPERBLOCK_SIZE && cache.raw.perBlock <= U32
    modifies cache, cache.raw, cache.raw.device, cache.lru, cache.hash
    ensures cache.Valid() && cache.DeviceKept() && |cache.view| == |old(cache.view)|
    ensures st == if 0 < |cache.view| && SUPERBLOCK_SIZE <= cache.raw.blockSize then Ok else ErrOutOfBounds
    ensures st == Ok ==> cache.Healthy() && cache.history == [0] && |old(cache.view)[0]| == cache.raw.blockSize
    ensures st == Ok ==> cache.view == old(cache.view)[0 := Splice(old(cache.view)[0], 0, sb)]
  {
    hide BlockCache.Valid, BlockCache.CanServe, Splice;
    cache.NothingCached();
    cache.HealthyServes(0);
    cache.ViewSized();
    ghost var out;
    st, out := cache.Io(Op.Write, 0, 0, sb, |sb|);
  }

  lemma SomeSlot(cache: BlockCache)
    requires cache.Healthy() && cache.entriesUsed == 1
    ensures 1 <= cache.slots
  {
  }

  /** Writing the bitmap fails on a device of one block, which evicts block 0 when there is one slot only. */
  method PutBitmap(cache: BlockCache, bitmap: BlockBitmap) returns (st: Status)
    requires cache.Healthy() && cache.history == [0] && bitmap.Fits() && cache.raw.blockSize == bitmap.blockSize < U32
    requires bitmap.firstBlock == 1 && 0 < |cache.view|
    requires if |cache.view| == 1 then bitmap.sizeInBlocks == 1 && 2 * cache.raw.perBlock <= U32
             else 1 + bitmap.sizeInBlocks <= |cache.view|
    modifies cache, cache.raw, cache.raw.device, cache.lru, cache.hash
    ensures cache.Valid() && |cache.view| == |old(cache.view)|
    ensures st == if |cache.view| == 1 then ErrOutOfBounds else Ok
    ensures st == Ok ==> bitmap.Suits(cache) && bitmap.Stored(cache.view, bitmap.sizeInBlocks)
    ensures st == Ok ==> cache.view[0] == old(cache.view)[0]
    ensures st != Ok ==> if cache.slots == 1 then cache.Saved(0) else cache.DeviceKept()
  {
    hide BlockCache.Valid, BlockBitmap.Image, BlockCache.Saved, BlockCache.DeviceKept, BlockCache.Victim;
    cache.OneBlockCached(0);
    SomeSlot(cache);
    st := bitmap.Save(cache);
  }

  lemma RawOf(cache: BlockCache)
    requires cache.Valid()
    ensures 0 < cache.raw.perBlock && cache.raw.blockSize == cache.raw.perBlock * cache.raw.device.sectorSize
    ensures cache.raw.perBlock == cache.raw.blockSize / cache.raw.device.sectorSize && |cache.raw.disk| == |cache.view|
    ensures 0 < |cache.view| ==>
              && cache.raw.disk[0] == BlockAt(cache.raw.device.sectors, cache.raw.perBlock, 0)
              && |cache.raw.disk[0]| == cache.raw.blockSize
  {
    DivMod(cache.raw.perBlock, 0, cache.raw.device.sectorSize);
  }

  lemma FewSectors(cache: BlockCache)
    requires cache.Healthy() && cache.raw.blockSize <= 4096
    ensures cache.Valid() && 2 * cache.raw.perBlock <= U32
    ensures cache.raw.perBlock == cache.raw.blockSize / cache.raw.device.sectorSize && |cache.raw.disk| == |cache.view|
    ensures 0 < |cache.view| ==>
              && cache.raw.disk[0] == BlockAt(cache.raw.device.sectors, cache.raw.perBlock, 0)
              && |cache.raw.disk[0]| == cache.raw.blockSize
  {
    RawOf(cache);
    MulMono(1, cache.raw.device.sectorSize, cache.raw.perBlock);
  }

  /** Writes the superblock and the bitmap through a new cache, then flushes it. */
  method WriteVolume(cache: BlockCache, bitmap: BlockBitmap, sb: Block) returns (st: Status)
    requires cache.Healthy() && cache.history == [] && cache.view == cache.raw.disk && |sb| == SUPERBLOCK_SIZE
    requires bitmap.Fits() && bitmap.blockSize == cache.raw.blockSize <= 4096 && bitmap.firstBlock == 1
    requires 2 * cache.raw.perBlock <= U32
    requires (|cache.view| == 1 ==> bitmap.sizeInBlocks == 1)
    requires 2 <= |cache.view| ==> 1 + bitmap.sizeInBlocks <= |cache.view|
    modifies cache, cache.raw, cache.raw.device, cache.lru, cache.hash
    ensures cache.Valid() && |cache.view| == |old(cache.view)|
    ensures st == if SUPERBLOCK_SIZE <= cache.raw.blockSize && 2 <= |cache.view| then Ok else ErrOutOfBounds
    ensures st == Ok ==> bitmap.Suits(cache) && cache.raw.disk == cache.view
    ensures st == Ok ==> bitmap.Stored(cache.view, bitmap.sizeInBlocks)
    ensures st == Ok ==> SUPERBLOCK_SIZE <= |cache.view[0]| && cache.view[0][..SUPERBLOCK_SIZE] == sb
    ensures st != Ok ==>
              if |cache.view| == 1 && SUPERBLOCK_SIZE <= cache.raw.blockSize && cache.slots == 1 then
                && SUPERBLOCK_SIZE <= |old(cache.raw.disk)[0]|
                && cache.raw.disk == [Splice(old(cache.raw.disk)[0], 0, sb)]
                && cache.raw.OnlyBlock(0)
              else cache.DeviceKept()
  {
    hide BlockCache.Valid, BlockBitmap.Image;
    st := PutSuperblock(cache, sb);
    if st != Ok {
      return;
    }
    st := PutBitmap(cache, bitmap);
    if st != Ok {
      return;
    }
    st := cache.Flush();
  }

  /** Makes an empty volume on the device, as far as it goes. */
  method Format(device: SectorDevice, v: Volume, slots: nat, sb: Block)
    returns (st: Status, cache: BlockCache, bitmap: BlockBitmap)
    requires device.Valid() && 0 < slots && |sb| == SUPERBLOCK_SIZE && IsLayout(device, v)
    modifies device
    ensures cache.raw.device == device && cache.raw.blockSize == v.blockSize && |cache.view| == v.blocks
    ensures bitmap.Valid() && bitmap.Used() == Reserved(v) * Span(0, v.blocks) && bitmap.blocksInDevice == v.blocks
    ensures bitmap.blockSize == v.blockSize && bitmap.firstBlock == v.bitmapFirst
    ensures bitmap.sizeInBlocks == v.bitmapCount && bitmap.hint == 0
    ensures st == if SUPERBLOCK_SIZE <= v.blockSize && 2 <= v.blocks then Ok else ErrOutOfBounds
    ensures st == Ok ==> bitmap.Suits(cache) && cache.raw.disk == cache.view
    ensures st == Ok ==> bitmap.Stored(cache.view, bitmap.sizeInBlocks)
    ensures st == Ok ==> SUPERBLOCK_SIZE <= |cache.view[0]| && cache.view[0][..SUPERBLOCK_SIZE] == sb
    ensures st != Ok ==> Failed(device, v, slots, sb)
  {
    hide BlockCache.Healthy, BlockCache.Valid, BlockBitmap.Used, BlockBitmap.Stored, Reserved, BlockAt, Splice;
    bitmap := InitializeBlockBitmap(v.bitmapFirst, v.bitmapCount, v.blocks, v.blockSize);
    MarkReserved(bitmap, v);
    cache := new BlockCache(device, v.blockSize, slots);
    FewSectors(cache);
    st := WriteVolume(cache, bitmap, sb);
    RawOf(cache);
  }

  /**
   * Makes a volume with a number of empty inodes. sb is the superblock as stored. With no
   * desired size the chosen one must not be zero, since the source divides by it.
   */
  method Mkfs(device: SectorDevice, desired: nat, slots: nat, sb: Block, inodes: nat) returns (st: Status, m: Mounted?)
    requires device.Valid() && 0 < slots && |sb| == SUPERBLOCK_SIZE
    requires desired == 0 ==> AutoDetermineBlockSize(device.sectorSize, device.sectorSize * device.sectorCount) > 0
    modifies device
    ensures st == match Planned(device.sectorSize, device.sectorCount, desired)
                  case None => ErrNotSupported
                  case Some(v) => if SUPERBLOCK_SIZE <= v.blockSize && 2 <= v.blocks then Ok else ErrOutOfBounds
    ensures st == Ok ==> m != null && m.Valid() && |m.nodes| == inodes && m.cache.raw.device == device
    ensures st == Ok ==> m.volume == Planned(device.sectorSize, device.sectorCount, desired).value
    ensures st == Ok ==> m.bitmap.Used() == Reserved(m.volume) && m.bitmap.hint == 0 && OnDevice(m, sb)
    ensures st == Ok ==> forall i :: 0 <= i < inodes ==> m.nodes[i].Value() == EMPTY_INODE && !m.nodes[i].dirty
    ensures st == ErrNotSupported ==> unchanged(device)
    ensures st == ErrOutOfBounds ==>
              Failed(device, Planned(device.sectorSize, device.sectorCount, desired).value, slots, sb)
  {
    hide BlockCache.Healthy, BlockBitmap.Used, Owns, Blank;
    hide BlockBitmap.Stored, Failed, Reserved, Mounted.Valid, BlockBitmap.Fits;
    m := null;
    var size := ChooseBlockSize(device.sectorSize, device.sectorCount, desired);
    if size.None? {
      return ErrNotSupported, null;
    }
    AutoBlockSizeUsable(device.sectorSize, device.sectorSize * device.sectorCount);
    var v := PopulateSuperblock(device.sectorSize, device.sectorCount, size.value);
    LayoutFits(device.sectorSize, device.sectorCount, size.value);
    var cache, bitmap;
    st, cache, bitmap := Format(device, v, slots, sb);
    if st != Ok {
      return;
    }
    ReservedInside(v);
    m := EmptyMounted(v, cache, bitmap, inodes);
  }

  /** The blocks of the volume itself. */
  lemma ReservedBlocks(v: Volume)
    ensures forall b: nat :: b in Reserved(v) <==> b == 0 || v.bitmapFirst <= b < v.bitmapFirst + v.bitmapCount
  {
  }

  /** Writes the bitmap and the superblock and flushes: the device then holds what the volume holds. */
  method Sync(m: Mounted, sb: Block) returns (st: Status)
    requires m.Valid() && |sb| == SUPERBLOCK_SIZE <= m.volume.blockSize && 0 < m.volume.bitmapFirst
    requires m.volume.bitmapFirst + m.volume.bitmapCount <= m.volume.blocks
    modifies m.cache, m.cache.raw, m.cache.raw.device, m.cache.lru, m.cache.hash
    ensures st == Ok && m.Valid() && OnDevice(m, sb)
    ensures m.Files() == old(m.Files()) && m.bitmap.Used() == old(m.bitmap.Used())
    ensures forall i :: 0 <= i < |m.nodes| ==>
              Content(m.cache.view, m.Files()[i]) == old(Content(m.cache.view, m.Files()[i]))
    ensures |m.cache.view| == |old(m.cache.view)|
    ensures forall b :: 0 <= b < |m.cache.view| && b !in Reserved(m.volume) ==> m.cache.view[b] == old(m.cache.view)[b]
  {
    hide BlockCache.Healthy, BlockBitmap.Used, Owns, Reserved, BlockBitmap.Stored, Content;
    st := WriteOut(m.cache, m.bitmap, sb);
    ReservedBlocks(m.volume);
    ReservedRewritten(old(m.cache.view), m.cache.view, m.Files(), m.bitmap.Used(), m.volume);
  }

  lemma RawValid(cache: BlockCache)
    requires cache.Healthy()
    ensures cache.raw.Valid() && cache.raw.blockSize % cache.raw.device.sectorSize == 0
  {
    hide BlockCache.Structure, BlockCache.Faithful, BlockCache.Resident, Recent, Laid, Sized;
    DivMod(cache.raw.perBlock, 0, cache.raw.device.sectorSize);
  }

  lemma SameFactor(a: nat, b: nat, d: nat)
    requires 0 < d && a * d == b * d
    ensures a == b
  {
    DivMod(a, 0, d);
    DivMod(b, 0, d);
  }

  /** Two stores over one device agree on what is on it. */
  lemma SameDisk(a: RawStore, b: RawStore)
    requires a.Valid() && b.Valid() && a.device == b.device && a.blockSize == b.blockSize
    ensures a.disk == b.disk
  {
    hide Laid, Sized;
    SameFactor(a.perBlock, b.perBlock, a.device.sectorSize);
    LaidUnique(a.device.sectors, a.perBlock, a.disk, b.disk);
  }

  lemma ByteOf(a: BlockBitmap, i: nat, k: nat)
    requires a.Fits() && i < a.sizeInBlocks && i * a.blockSize <= k < i * a.blockSize + a.blockSize
    ensures k < a.buffer.Length && |a.Image(i)| == a.blockSize && a.buffer[k] == a.Image(i)[k - i * a.blockSize]
  {
    a.Slice(i);
  }

  lemma BlockOf(k: nat, blocks: nat, size: nat) returns (i: nat)
    requires k < blocks * size
    ensures i < blocks && i * size <= k < i * size + size
  {
    i := k / size;
    Split(k, size);
    if blocks <= i {
      MulMono(blocks, i, size);
    }
  }

  /** Two bitmaps stored in the same blocks are the same. */
  lemma SameBitmap(a: BlockBitmap, b: BlockBitmap, view: seq<Block>)
    requires a.Fits() && b.Fits() && a.blocksInDevice == b.blocksInDevice && a.blockSize == b.blockSize
    requires a.firstBlock == b.firstBlock && a.sizeInBlocks == b.sizeInBlocks && a.firstBlock + a.sizeInBlocks <= |view|
    requires a.Stored(view, a.sizeInBlocks) && b.Stored(view, b.sizeInBlocks)
    ensures a.buffer[..] == b.buffer[..] && a.Used() == b.Used()
  {
    hide BlockBitmap.Image, UsedIn;
    var s, t := a.buffer[..], b.buffer[..];
    forall k | 0 <= k < a.buffer.Length
      ensures s[k] == t[k]
    {
      var i := BlockOf(k, a.sizeInBlocks, a.blockSize);
      assert a.Image(i) == view[a.firstBlock + i] == b.Image(i);
      ByteOf(a, i, k);
      ByteOf(b, i, k);
    }
  }

  /**
   * Mounts the device of a synced volume again, with a new cache of any size and inodes that own their blocks:
   * the superblock, the view of every block and the used blocks are the same.
   */
  method Remount(device: SectorDevice, v: Volume, slots: nat, values: seq<Inode>, ghost was: Mounted, ghost sb: Block)
    returns (st: Status, m: Mounted, read: Block)
    requires was.Valid() && OnDevice(was, sb) && |sb| == SUPERBLOCK_SIZE <= was.volume.blockSize && 0 < slots
    requires device == was.cache.raw.device && v == was.volume && Owns(was.cache.view, values, was.bitmap.Used(), v)
    modifies device
    ensures st == Ok && m.Valid() && fresh(m) && m.volume == v && read == sb && m.Files() == values
    ensures fresh(m.cache) && fresh(m.cache.raw) && fresh(m.cache.lru) && fresh(m.cache.hash) && fresh(m.bitmap)
    ensures fresh(m.bitmap.buffer)
    ensures m.cache.raw.device == device && m.cache.view == old(was.cache.view)
    ensures m.bitmap.Used() == old(was.bitmap.Used()) && m.bitmap.hint == 0
  {
    hide BlockCache.Healthy, BlockBitmap.Used, Owns, BlockBitmap.Stored;
    RawValid(was.cache);
    var cache := new BlockCache(device, v.blockSize, slots);
    RawValid(cache);
    SameDisk(was.cache.raw, cache.raw);
    var bitmap := new BlockBitmap(v.bitmapFirst, v.bitmapCount, v.blocks, v.blockSize);
    st, read := cache.Read(0, 0, SUPERBLOCK_SIZE);
    if st != Ok {
      return;
    }
    st := bitmap.Load(cache);
    if st != Ok {
      return;
    }
    SameBitmap(was.bitmap, bitmap, cache.view);
    m := Assemble(v, cache, bitmap, values);
  }
}
