/** Small volumes on which the operations on files do not keep what one would expect of them. */
module FailingInputs {
  import opened Common
  import opened SectorDevices
  import RawBlocks
  import opened BlockCaches
  import opened Bitmaps
  import opened Ranges
  import opened FileLayout
  import opened FileSteps
  import opened Files
  import opened DirEntries
  import opened Directories
  import opened Superblocks
  import opened StoredInodes
  import opened Volumes
  import opened InodeStore
  import opened InodeRecords

  /** Fifteen blocks of 512 bytes, the second one for the bitmap. */
  const SMALL := Volume(512, 15, 1, 1)

  /** Ranges of one block each, then empty ones. */
  function Singles(blocks: seq<nat>, n: nat): (arr: seq<Range>)
    requires |blocks| <= n
    ensures |arr| == n
  {
    if blocks == [] then seq(n, _ => EMPTY) else [Range(blocks[0], 1)] + Singles(blocks[1..], n - 1)
  }

  lemma {:induction false} SinglesAre(blocks: seq<nat>, n: nat)
    requires |blocks| <= n && forall k :: 0 <= k < |blocks| ==> 0 < blocks[k] < U32
    ensures Flat(Singles(blocks, n)) == blocks && Depth(Singles(blocks, n)) == |blocks| && Shaped(Singles(blocks, n))
    ensures forall k :: 0 <= k < |blocks| ==> Singles(blocks, n)[k] == Range(blocks[k], 1)
  {
    if blocks != [] {
      var arr, rest := Singles(blocks, n), Singles(blocks[1..], n - 1);
      SinglesAre(blocks[1..], n - 1);
      assert arr[1..] == rest && Run(arr[0]) == [blocks[0]];
    }
  }

  /** A file with the given blocks and size. */
  function FileOf(blocks: seq<nat>, size: nat): (n: Inode)
    requires |blocks| <= RANGES_IN_INODE
  {
    Inode(size, |blocks|, Singles(blocks, RANGES_IN_INODE), 0, 0)
  }

  lemma FlatNothing()
    ensures Flat([]) == []
  {
  }

  lemma FileSound(view: seq<Block>, blocks: seq<nat>, size: nat)
    requires |blocks| <= RANGES_IN_INODE && Distinct(blocks) && size <= 512 * |blocks|
    requires forall k :: 0 <= k < |blocks| ==> 0 < blocks[k] < U32
    ensures Sound(view, FileOf(blocks, size), SMALL) && OwnedSet(view, FileOf(blocks, size)) == Elems(blocks)
  {
    hide Flat, Shaped, Depth, Singles;
    SinglesAre(blocks, RANGES_IN_INODE);
    FlatNothing();
    assert Owned(view, FileOf(blocks, size)) == blocks;
  }

  lemma FileOwns(view: seq<Block>, blocks: seq<nat>, size: nat, used: nat)
    requires |blocks| <= RANGES_IN_INODE && Distinct(blocks) && size <= 512 * |blocks| && 2 <= used <= 15 <= |view|
    requires forall k :: 0 <= k < |blocks| ==> 2 <= blocks[k] < used
    ensures Owns(view, [FileOf(blocks, size)], Span(0, used), SMALL)
    ensures OwnedSet(view, FileOf(blocks, size)) == Elems(blocks)
  {
    hide Sound, OwnedSet, FileOf;
    FileSound(view, blocks, size);
  }

  /** A cache over an empty device, and a bitmap on which the blocks below used are marked used. */
  method MakeParts(used: nat) returns (cache: BlockCache, bitmap: BlockBitmap)
    requires 2 <= used <= 15
    ensures cache.Healthy() && |cache.view| == 15 && cache.raw.blockSize == 512
    ensures fresh(cache) && fresh(cache.raw) && fresh(cache.raw.device) && fresh(cache.lru) && fresh(cache.hash)
    ensures bitmap.Valid() && fresh(bitmap) && fresh(bitmap.buffer) && bitmap.Used() == Span(0, used)
    ensures bitmap.firstBlock == 1 && bitmap.sizeInBlocks == 1 && bitmap.blocksInDevice == 15 && bitmap.blockSize == 512
  {
    hide BlockBitmap.Used, BlockCache.Healthy;
    bitmap := new BlockBitmap(1, 1, 15, 512);
    for b := 0 to used
      invariant bitmap.Valid() && bitmap.Used() == Span(0, b)
    {
      bitmap.MarkUsed(b);
    }
    var device := new SectorDevice(512, seq(15, _ => Zeros(512)));
    cache := new BlockCache(device, 512, 4);
  }

  /** A volume with one file, on which the blocks below used are marked used. */
  method MakeSmall(blocks: seq<nat>, size: nat, used: nat) returns (m: Mounted)
    requires |blocks| <= RANGES_IN_INODE && Distinct(blocks) && size <= 512 * |blocks| && 2 <= used <= 15
    requires forall k :: 0 <= k < |blocks| ==> 2 <= blocks[k] < used
    ensures m.Valid() && m.volume == SMALL && m.Files() == [FileOf(blocks, size)] && |m.nodes| == 1
    ensures fresh(m) && fresh(m.cache) && fresh(m.cache.raw) && fresh(m.cache.raw.device) && fresh(m.cache.lru)
    ensures fresh(m.cache.hash)
    ensures fresh(m.bitmap) && fresh(m.bitmap.buffer) && fresh(m.nodes[0]) && fresh(m.nodes[0].ranges)
    ensures m.bitmap.Used() == Span(0, used) && !m.nodes[0].dirty
  {
    hide BlockBitmap.Used, BlockCache.Healthy, Owns, FileOf;
    var cache, bitmap := MakeParts(used);
    FileOwns(cache.view, blocks, size, used);
    m := Assemble(SMALL, cache, bitmap, [FileOf(blocks, size)]);
  }

  /** A file that has used up its ranges, none of which can grow, where one block is free. */
  const FULL_RANGES := [2, 4, 6, 8, 10, 12]

  lemma FullRangesLeak(view: seq<Block>)
    ensures var n := FileOf(FULL_RANGES, 0);
            && Leaks(n, Span(0, 14), SMALL) && FreeBlocks(Span(0, 14), 15) == {14}
            && ExpandStatus(view, n, Span(0, 14), SMALL) == ErrResourcesExhausted
  {
    SinglesAre(FULL_RANGES, RANGES_IN_INODE);
    assert FreeBlocks(Span(0, 14), 15) == {14};
    NewIndirectStatus(view, FileOf(FULL_RANGES, 0), Span(0, 14), SMALL);
  }

  /** A block marked used that neither the volume nor its only file owns. */
  ghost predicate Stray(view: seq<Block>, n: Inode, used: set<nat>, v: Volume, b: nat) {
    b in used && b !in Reserved(v) && b !in OwnedSet(view, n)
  }

  lemma BlockStrays(view: seq<Block>, used: set<nat>)
    requires 14 in used && 15 <= |view|
    ensures Stray(view, FileOf(FULL_RANGES, 0), used, SMALL, 14)
  {
    FileOwns(view, FULL_RANGES, 0, 14);
  }

  /**
   * An expansion that needs an indirect block when one block is free: it fails, the file is as it
   * was, and block 14 stays used though no file owns it.
   */
  method ExpansionThatLeaks() returns (m: Mounted, st: Status)
    ensures |m.nodes| == 1 && m.bitmap.Fits() && st == ErrResourcesExhausted
    ensures m.Files() == [FileOf(FULL_RANGES, 0)] && Stray(m.cache.view, m.Files()[0], m.bitmap.Used(), m.volume, 14)
    ensures m.Valid()
  {
    hide BlockCache.Healthy, BlockBitmap.Used, Owns, Singles, Leaks, ExpandStatus, Stray, OwnedSet, FreeBlocks;
    m := MakeSmall(FULL_RANGES, 0, 14);
    FullRangesLeak(m.cache.view);
    var newBlock;
    st, newBlock := m.InodeExpandBlocks(0);
    BlockStrays(m.cache.view, m.bitmap.Used());
  }

  lemma OneBlockStuck(view: seq<Block>)
    ensures var n := FileOf([2], 1);
            ExpandStatus(view, n, Span(0, 15), SMALL) != Ok && Capacity(n, SMALL) == 512
  {
    SinglesAre([2], RANGES_IN_INODE);
    InlineStatus(view, FileOf([2], 1), Span(0, 15), SMALL);
  }

  /**
   * A write that fills the last block of a file and needs another one when no block is free: the
   * file has grown from 1 byte to 512, and its inode is not dirty.
   */
  method WriteNotMarked() returns (m: Mounted, st: Status)
    ensures m.Valid() && |m.nodes| == 1 && st != Ok
    ensures m.Files() == [FileOf([2], 1).(fileSize := 512)] && !m.nodes[0].dirty
  {
    hide BlockCache.Healthy, BlockBitmap.Used, Owns, Singles, Leaks, ExpandStatus, Capacity, Wrote;
    m := MakeSmall([2], 1, 15);
    OneBlockStuck(m.cache.view);
    assert m.Now().files[0] == FileOf([2], 1);
    var written;
    ghost var at;
    st, written, at := m.InodeWriteFileBytes(0, 1, seq(512, _ => 7));
  }

  /** The last entry of a directory deleted: the file has shrunk by an entry, and its inode is not dirty. */
  method DeletionNotMarked() returns (m: Mounted, st: Status)
    ensures m.Valid() && |m.nodes| == 1 && st == Ok
    ensures m.Files() == [FileOf([2], 0)] && !m.nodes[0].dirty
  {
    hide BlockCache.Healthy, BlockBitmap.Used, Owns, Singles;
    m := MakeSmall([2], 64, 15);
    TextSize(m, 0);
    st := DirDeleteEntry(m, 0, 0);
  }

  /** The last record of the file of inodes deleted: the file has shrunk by a record, and its inode is not dirty. */
  method RecordDeletionNotMarked() returns (m: Mounted, st: Status)
    ensures m.Valid() && |m.nodes| == 1 && st == Ok
    ensures m.Files() == [FileOf([2], 0)] && !m.nodes[DB].dirty
  {
    hide BlockCache.Healthy, BlockBitmap.Used, Owns, Singles;
    m := MakeSmall([2], 64, 15);
    TextSize(m, DB);
    st := InodeDbDelete(m, 0);
  }

  /** An empty file of inodes, and a root directory with one entry. */
  const WITH_ENTRY := [EMPTY_INODE, FileOf([2], 64)]

  lemma EmptySound(view: seq<Block>)
    ensures Sound(view, EMPTY_INODE, SMALL) && OwnedSet(view, EMPTY_INODE) == {}
  {
    EmptyIsBlank();
    FlatNothing();
    assert Owned(view, EMPTY_INODE) == [];
  }

  lemma TwoFilesOwn(view: seq<Block>)
    requires 15 <= |view|
    ensures Owns(view, WITH_ENTRY, Span(0, 15), SMALL) && Storable(WITH_ENTRY[ROOT])
  {
    hide Sound, OwnedSet, Blank;
    EmptyIsBlank();
    EmptySound(view);
    FileOwns(view, [2], 64, 15);
    FileStorable(view, [FileOf([2], 64)], 0, Span(0, 15), SMALL);
    assert [FileOf([2], 64)][0] == WITH_ENTRY[ROOT];
  }

  /** A superblock for that volume. */
  function SuperblockWithEntry(): (sb: Block)
    ensures |sb| == SUPERBLOCK_SIZE
  {
    Splice(NewSuperblock(512, SMALL, Zeros(32)), ROOT_AT, InodeBytes(FileOf([2], 64)))
  }

  lemma SuperblockReads()
    requires Storable(FileOf([2], 64))
    ensures var sb := SuperblockWithEntry();
            && Recognised(sb) && LayoutOf(sb) == SMALL && InodeAt(sb, DB_AT) == EMPTY_INODE
            && InodeAt(sb, ROOT_AT) == FileOf([2], 64)
  {
    hide NewSuperblock, InodeBytes, InodeOf, Recognised, LayoutOf, InodeAt, Splice;
    NewSuperblockReads(512, SMALL, Zeros(32));
    InodePut(NewSuperblock(512, SMALL, Zeros(32)), ROOT_AT, FileOf([2], 64));
  }

  /** A volume with an empty file of inodes and a root directory with one entry, all stored. */
  method MakeWithEntry() returns (vol: OpenVolume)
    ensures vol.Valid() && vol.m.Files() == WITH_ENTRY && vol.ids == [0, 0] && |vol.m.nodes| == 2
    ensures vol.Copies() == WITH_ENTRY && !vol.m.nodes[DB].dirty && !vol.m.nodes[ROOT].dirty
    ensures fresh(vol) && fresh(vol.m) && fresh(vol.m.cache) && fresh(vol.m.cache.raw) && fresh(vol.m.cache.raw.device)
    ensures fresh(vol.m.cache.lru)
    ensures fresh(vol.m.cache.hash) && fresh(vol.m.bitmap) && fresh(vol.m.bitmap.buffer)
    ensures forall k :: 0 <= k < 2 ==> fresh(vol.m.nodes[k]) && fresh(vol.m.nodes[k].ranges)
  {
    hide BlockBitmap.Used, BlockCache.Healthy, Owns, FileOf;
    hide SuperblockWithEntry, Recognised, LayoutOf, InodeAt, Mounted.Valid;
    var cache, bitmap := MakeParts(15);
    TwoFilesOwn(cache.view);
    SuperblockReads();
    var m := Assemble(SMALL, cache, bitmap, WITH_ENTRY);
    vol := new OpenVolume(m, [0, 0], SuperblockWithEntry());
    assert vol.m.nodes[DB].Value() == WITH_ENTRY[DB] && vol.m.nodes[ROOT].Value() == WITH_ENTRY[ROOT];
  }

  /** The same volume after the entry was deleted. */
  method MakeDeleted() returns (vol: OpenVolume)
    ensures vol.Valid() && |vol.ids| == |vol.m.nodes| == 2 && vol.m.nodes[ROOT].Value() == FileOf([2], 0)
    ensures vol.Copies()[ROOT] == FileOf([2], 64) && !vol.m.nodes[ROOT].dirty
    ensures fresh(vol) && fresh(vol.m) && fresh(vol.m.cache) && fresh(vol.m.cache.raw) && fresh(vol.m.cache.raw.device)
    ensures fresh(vol.m.cache.lru)
    ensures fresh(vol.m.cache.hash) && fresh(vol.m.bitmap) && fresh(vol.m.bitmap.buffer)
    ensures forall k :: 0 <= k < 2 ==> fresh(vol.m.nodes[k]) && fresh(vol.m.nodes[k].ranges)
  {
    hide BlockBitmap.Used, Singles, Recognised, LayoutOf, InodeAt;
    hide Mounted.Valid, Mounted.Now, RecordIn, Content, Mounted.OthersKept, Entries, Took;
    vol := MakeWithEntry();
    TextSize(vol.m, ROOT);
    assert vol.m.nodes[ROOT].Value() == FileOf([2], 64) && vol.m.nodes[DB].Value() == EMPTY_INODE;
    vol.m.NodesApart();
    var st := DirDeleteEntry(vol.m, ROOT, 0);
    assert vol.m.nodes[DB].Value() == EMPTY_INODE;
  }

  /**
   * The last entry of the root directory is deleted, and the volume is synced: the copy on the device still has the
   * entry, so that the next mount brings it back.
   */
  method DeletionUndone() returns (vol: OpenVolume, st: Status)
    ensures vol.Valid() && |vol.ids| == |vol.m.nodes| == 2 && st == Ok && OnDevice(vol.m, vol.sb)
    ensures vol.m.Files()[ROOT] == FileOf([2], 0) && vol.Copies()[ROOT] == FileOf([2], 64)
  {
    hide OpenVolume.Fitting, Mounted.Valid, OnDevice, OpenVolume.Copies, OpenVolume.Texts, FileOf, OpenVolume.Marked;
    vol := MakeDeleted();
    st := vol.SyncAll();
  }

  lemma OneSector(sectors: seq<Block>)
    requires |sectors| == 1
    ensures RawBlocks.BlockAt(sectors, 1, 0) == sectors[0]
  {
    assert SectorDevices.Bytes(sectors, 0, 0) == [];
  }

  lemma OneBlockPlanned()
    ensures Planned(512, 1, 512) == Some(Volume(512, 1, 1, 1))
  {
  }

  /** A device of one block and a cache with one slot: no volume is made, but the superblock is on the device. */
  method SuperblockSpilled(sb: Block) returns (device: SectorDevice, st: Status)
    requires |sb| == SUPERBLOCK_SIZE
    ensures st == ErrOutOfBounds && device.sectors == [sb]
  {
    hide Splice, OnDevice, BlockBitmap.Used, Mounted.Valid, Planned, RawBlocks.BlockAt, Zeros;
    OneBlockPlanned();
    device := new SectorDevice(512, [Zeros(512)]);
    OneSector(device.sectors);
    SpliceWhole(Zeros(512), sb);
    var m;
    st, m := Mkfs(device, 512, 1, sb, 2);
    OneSector(device.sectors);
  }
}
