/** From one mount to the next: what the files hold survives. */
module Persistence {
  import opened Common
  import opened SectorDevices
  import opened RawBlocks
  import opened BlockCaches
  import opened Bitmaps
  import opened FileLayout
  import opened FileSteps
  import opened Files
  import opened FileRuns
  import opened Directories
  import opened Superblocks
  import opened StoredInodes
  import opened InodeStore
  import opened Volumes

  /** Reads the superblock from the first sector, and looks whether it is one. */
  method ReadSuperblock(device: SectorDevice) returns (st: Status, sb: Block)
    requires device.Valid() && SUPERBLOCK_SIZE <= device.sectorSize
    ensures |device.sectors| == 0 ==> st == ErrOutOfBounds
    ensures 0 < |device.sectors| ==>
              && sb == device.sectors[0][..SUPERBLOCK_SIZE]
              && st == if !HasMagic(sb) then ErrNotRecognized else if !Recognised(sb) then ErrNotSupported else Ok
  {
    var sector;
    st, sector := device.ReadSector(0);
    if st != Ok {
      return st, [];
    }
    sb := sector[..SUPERBLOCK_SIZE];
    if !HasMagic(sb) {
      return ErrNotRecognized, sb;
    }
    if !Recognised(sb) {
      return ErrNotSupported, sb;
    }
  }

  /** The planned layout fits its fields in the superblock. */
  lemma PlanFits(sectorSize: nat, sectorCount: nat, desired: nat)
    requires 0 < sectorSize && sectorCount < U32 && Planned(sectorSize, sectorCount, desired).Some?
    ensures var v := Planned(sectorSize, sectorCount, desired).value;
            && v.blockSize <= 4096 && v.blocks < U32 && v.bitmapFirst == 1
            && (2 <= v.blocks ==> v.bitmapFirst + v.bitmapCount <= v.blocks)
  {
    AutoBlockSizeUsable(sectorSize, sectorSize * sectorCount);
    LayoutFits(sectorSize, sectorCount, Planned(sectorSize, sectorCount, desired).value.blockSize);
  }

  lemma StartsMarked(vol: OpenVolume, v: Volume, sectorSize: nat, name: Block)
    requires vol.m.Valid() && vol.ids == [0, 0] && |vol.m.nodes| == ROOT + 1 && vol.m.volume == v
    requires 0 < sectorSize && |name| == 32 && vol.sb == NewSuperblock(sectorSize, v, name)
    requires SUPERBLOCK_SIZE <= v.blockSize < U32 && 0 < v.bitmapFirst
    requires v.bitmapFirst + v.bitmapCount <= v.blocks < U32
    requires forall k :: 0 <= k < |vol.m.nodes| ==> vol.m.nodes[k].Value() == EMPTY_INODE
    ensures vol.Valid() && vol.Copies() == vol.m.Files()
  {
    hide Mounted.Valid, Content, NewSuperblock, InodeOf, Recognised, LayoutOf;
    NewSuperblockReads(sectorSize, v, name);
    assert forall k :: 0 <= k < |vol.m.nodes| ==> vol.m.nodes[k].Value().fileSize == 0;
    assert forall k :: 0 <= k < |vol.ids| ==> vol.Copies()[k] == EMPTY_INODE;
  }

  /** Makes a volume with an empty file of inodes and an empty root directory, and a superblock that says so. */
  method NewVolume(device: SectorDevice, desired: nat, slots: nat, name: Block) returns (st: Status, vol: OpenVolume?)
    requires device.Valid() && 0 < slots && |name| == 32
    requires desired == 0 ==> AutoDetermineBlockSize(device.sectorSize, device.sectorSize * device.sectorCount) > 0
    modifies device
    ensures st == match Planned(device.sectorSize, device.sectorCount, desired)
                  case None => ErrNotSupported
                  case Some(v) => if SUPERBLOCK_SIZE <= v.blockSize && 2 <= v.blocks then Ok else ErrOutOfBounds
    ensures st == Ok ==> vol != null && vol.Valid() && vol.Marked() && OnDevice(vol.m, vol.sb)
    ensures st == Ok ==> vol.m.cache.raw.device == device && vol.m.bitmap.hint == 0
    ensures st == Ok ==> forall k :: 0 <= k < |vol.m.nodes| ==> vol.m.nodes[k].Value() == EMPTY_INODE
  {
    hide Mounted.Valid, OnDevice, BlockBitmap.Used, NewSuperblock;
    hide Planned, OpenVolume.Copies, Recognised, LayoutOf, Failed;
    vol := null;
    var plan := Planned(device.sectorSize, device.sectorCount, desired);
    var sb := match plan case None => Zeros(SUPERBLOCK_SIZE) case Some(v) => NewSuperblock(device.sectorSize, v, name);
    var m;
    st, m := Mkfs(device, desired, slots, sb, ROOT + 1);
    if st != Ok {
      return;
    }
    PlanFits(device.sectorSize, device.sectorCount, desired);
    vol := new OpenVolume(m, [0, 0], sb);
    StartsMarked(vol, plan.value, device.sectorSize, name);
  }

  /** Some of the files of a volume own their blocks. */
  lemma FirstFiles(view: seq<Block>, files: seq<Inode>, n: nat, used: set<nat>, v: Volume)
    requires Owns(view, files, used, v) && n <= |files|
    ensures Owns(view, files[..n], used, v)
  {
    hide OwnedSet, Sound, Reserved, Span;
  }

  /** Loads an inode from its record. */
  method InodeDbLoad(m: Mounted, r: nat) returns (st: Status, n: Inode)
    requires m.Valid() && DB < |m.nodes| && INODE_SIZE * r + INODE_SIZE <= m.nodes[DB].fileSize
    modifies m.cache, m.cache.raw, m.cache.raw.device, m.cache.lru, m.cache.hash
    ensures m.Valid() && m.cache.view == old(m.cache.view) && st == Ok && n == RecordIn(Text(m, DB), r)
  {
    hide Mounted.Valid, Content, InodeOf;
    TextSize(m, DB);
    var rec;
    st, rec := InodeReadFileRec(m, DB, INODE_SIZE, r);
    if st != Ok {
      return st, EMPTY_INODE;
    }
    n := InodeOf(rec);
  }

  /** Loads the inodes of some records. */
  method LoadInodes(m: Mounted, ids: seq<nat>) returns (st: Status, values: seq<Inode>)
    requires m.Valid() && |m.nodes| == ROOT + 1 <= |ids|
    requires forall k :: ROOT < k < |ids| ==> INODE_SIZE * ids[k] + INODE_SIZE <= m.nodes[DB].fileSize
    modifies m.cache, m.cache.raw, m.cache.raw.device, m.cache.lru, m.cache.hash
    ensures m.Valid() && m.cache.view == old(m.cache.view) && st == Ok && |values| == |ids|
    ensures values[..ROOT + 1] == m.Files()
    ensures forall k :: ROOT < k < |ids| ==> values[k] == RecordIn(Text(m, DB), ids[k])
  {
    hide Mounted.Valid, Content, RecordIn;
    var db, root := m.nodes[DB], m.nodes[ROOT];
    values := [Inode(db.fileSize, db.blockCount, db.ranges[..], db.indirect, db.double),
               Inode(root.fileSize, root.blockCount, root.ranges[..], root.indirect, root.double)];
    st := Ok;
    for k := ROOT + 1 to |ids|
      invariant m.Valid() && m.cache.view == old(m.cache.view) && st == Ok && |values| == k
      invariant values[..ROOT + 1] == m.Files()
      invariant forall j :: ROOT < j < k ==> values[j] == RecordIn(Text(m, DB), ids[j])
    {
      var n;
      st, n := InodeDbLoad(m, ids[k]);
      if st != Ok {
        return;
      }
      values := values + [n];
    }
  }

  /** A synced volume whose copies are up to date, on a device whose sectors hold the superblock. */
  ghost predicate Synced(vol: OpenVolume, device: SectorDevice)
    reads vol, vol.m.cache, vol.m.cache.raw, vol.m.cache.raw.device, vol.m.cache.lru, vol.m.cache.hash, vol.m.bitmap,
        vol.m.bitmap.buffer
    reads vol.m.nodes, set n | n in vol.m.nodes :: n.ranges
  {
    && vol.Valid() && OnDevice(vol.m, vol.sb) && vol.Copies() == vol.m.Files()
    && device == vol.m.cache.raw.device && SUPERBLOCK_SIZE <= device.sectorSize
  }

  /** The first sector of the device is the superblock. */
  lemma SuperblockThere(vol: OpenVolume, device: SectorDevice)
    requires Synced(vol, device)
    ensures device.Valid() && 0 < |device.sectors| && device.sectors[0][..SUPERBLOCK_SIZE] == vol.sb
  {
    hide BlockCache.Structure, BlockCache.Faithful, BlockCache.Resident;
    hide BlockBitmap.Used, BlockBitmap.Stored, Owns, Recognised, LayoutOf;
    hide OwnRecords, OpenVolume.Copies;
    RawValid(vol.m.cache);
    FirstSector(vol.m.cache.raw, vol.sb);
  }

  /** The inodes in the superblock are those of the file of inodes and of the root directory. */
  lemma FirstInodes(vol: OpenVolume, device: SectorDevice)
    requires Synced(vol, device)
    ensures |vol.sb| == SUPERBLOCK_SIZE && Recognised(vol.sb) && LayoutOf(vol.sb) == vol.m.volume
    ensures ROOT < |vol.m.nodes|
    ensures [InodeAt(vol.sb, DB_AT), InodeAt(vol.sb, ROOT_AT)] == vol.m.Files()[..ROOT + 1]
    ensures vol.m.bitmap.Fits() && Owns(vol.m.cache.view, vol.m.Files()[..ROOT + 1], vol.m.bitmap.Used(), vol.m.volume)
  {
    hide BlockCache.Healthy, BlockBitmap.Used, BlockBitmap.Stored;
    hide Owns, Recognised, LayoutOf, InodeAt, OwnRecords, RecordIn;
    FirstFiles(vol.m.cache.view, vol.m.Files(), ROOT + 1, vol.m.bitmap.Used(), vol.m.volume);
    assert vol.Copies()[DB] == InodeAt(vol.sb, DB_AT) && vol.Copies()[ROOT] == InodeAt(vol.sb, ROOT_AT);
  }

  /** Mounts the device as far as the superblock goes: with the file of inodes and the root directory. */
  method OpenFirst(device: SectorDevice, slots: nat, ghost was: OpenVolume) returns (st: Status, m: Mounted, sb: Block)
    requires Synced(was, device) && 0 < slots
    modifies device
    ensures st == Ok && m.Valid() && fresh(m) && sb == old(was.sb) && m.volume == was.m.volume
    ensures m.Files() == old(was.m.Files())[..ROOT + 1]
    ensures fresh(m.cache) && fresh(m.cache.raw) && fresh(m.cache.lru) && fresh(m.cache.hash) && fresh(m.bitmap)
    ensures fresh(m.bitmap.buffer)
    ensures m.cache.raw.device == device && m.cache.view == old(was.m.cache.view)
    ensures m.bitmap.Used() == old(was.m.bitmap.Used()) && m.bitmap.hint == 0
  {
    hide Mounted.Valid, OnDevice, BlockBitmap.Used, Owns, Recognised;
    hide LayoutOf, InodeAt, OwnRecords, OpenVolume.Copies, SectorDevice.Valid;
    SuperblockThere(was, device);
    FirstInodes(was, device);
    st, sb := ReadSuperblock(device);
    var v, first := LayoutOf(sb), [InodeAt(sb, DB_AT), InodeAt(sb, ROOT_AT)];
    st, m, sb := Remount(device, v, slots, first, was.m, was.sb);
  }

  /** What is known of a synced volume: its layout, who owns what, and that its records are its inodes. */
  ghost predicate Facts(v: Volume, view: seq<Block>, files: seq<Inode>, used: set<nat>, ids: seq<nat>) {
    && ROOT < |ids| == |files| && OwnRecords(ids) && Owns(view, files, used, v)
    && SUPERBLOCK_SIZE <= v.blockSize && 0 < v.bitmapFirst && v.bitmapFirst + v.bitmapCount <= v.blocks
    && (forall k :: ROOT < k < |ids| ==>
          && INODE_SIZE * ids[k] + INODE_SIZE <= files[DB].fileSize
          && files[k] == RecordIn(Content(view, files[DB]), ids[k]))
    && (forall k :: 0 <= k < |files| ==> files[k].fileSize < U32)
  }

  lemma FactsOf(vol: OpenVolume, device: SectorDevice)
    requires Synced(vol, device)
    ensures vol.m.bitmap.Fits() && Facts(vol.m.volume, vol.m.cache.view, vol.m.Files(), vol.m.bitmap.Used(), vol.ids)
    ensures |vol.sb| == SUPERBLOCK_SIZE && Recognised(vol.sb) && LayoutOf(vol.sb) == vol.m.volume
  {
    hide BlockCache.Healthy, BlockBitmap.Used, BlockBitmap.Stored, Owns;
    hide Recognised, LayoutOf, InodeAt, OwnRecords, RecordIn, Content;
    forall k | ROOT < k < |vol.ids|
      ensures vol.m.Files()[k] == RecordIn(Content(vol.m.cache.view, vol.m.Files()[DB]), vol.ids[k])
    {
      assert vol.Copies()[k] == vol.m.Files()[k];
    }
  }

  lemma CopiesOf(vol: OpenVolume, device: SectorDevice)
    requires Synced(vol, device)
    ensures ROOT < |vol.ids| == |vol.m.nodes| && |vol.sb| == SUPERBLOCK_SIZE
    ensures Text(vol.m, DB) == Content(vol.m.cache.view, vol.m.Files()[DB])
    ensures forall k :: 0 <= k < |vol.ids| ==> vol.m.Files()[k] == Copy(vol.sb, Text(vol.m, DB), vol.ids, k)
  {
    hide Mounted.Valid, OnDevice, Recognised, LayoutOf, OwnRecords, Copy, Content;
    assert forall k :: 0 <= k < |vol.ids| ==> vol.Copies()[k] == vol.m.Files()[k];
  }

  /** The inodes that are loaded are those of the volume. */
  lemma AllLoaded(v: Volume, view: seq<Block>, files: seq<Inode>, used: set<nat>, ids: seq<nat>, values: seq<Inode>)
    requires Facts(v, view, files, used, ids) && |values| == |ids| && values[..ROOT + 1] == files[..ROOT + 1]
    requires forall k :: ROOT < k < |ids| ==> values[k] == RecordIn(Content(view, files[DB]), ids[k])
    ensures values == files
  {
    hide Owns, RecordIn, Content, OwnRecords;
    assert forall k :: 0 <= k <= ROOT ==> values[k] == values[..ROOT + 1][k] && files[k] == files[..ROOT + 1][k];
  }

  /** The same volume with other inodes, which own their blocks. */
  method WithInodes(m: Mounted, values: seq<Inode>) returns (m': Mounted)
    requires m.Valid() && Owns(m.cache.view, values, m.bitmap.Used(), m.volume)
    ensures fresh(m') && m'.Valid() && m'.Files() == values && m'.cache == m.cache && m'.bitmap == m.bitmap
    ensures m'.volume == m.volume
    ensures forall k :: 0 <= k < |m'.nodes| ==> !m'.nodes[k].dirty
  {
    hide BlockCache.Healthy, BlockBitmap.Used, BlockBitmap.Fits, Owns;
    m' := Assemble(m.volume, m.cache, m.bitmap, values);
  }

  /** Mounts the device and loads the inodes of the records. */
  method LoadAll(device: SectorDevice, slots: nat, ids: seq<nat>, ghost was: OpenVolume)
    returns (st: Status, m: Mounted, sb: Block, values: seq<Inode>)
    requires Synced(was, device) && 0 < slots && ids == was.ids
    modifies device
    ensures st == Ok && m.Valid() && sb == old(was.sb) && m.volume == was.m.volume && values == old(was.m.Files())
    ensures fresh(m) && fresh(m.cache) && fresh(m.bitmap) && fresh(m.bitmap.buffer)
    ensures m.cache.raw.device == device && m.cache.view == old(was.m.cache.view)
    ensures m.bitmap.Used() == old(was.m.bitmap.Used()) && m.bitmap.hint == 0
  {
    hide Mounted.Valid, BlockBitmap.Used, Owns, OwnRecords, RecordIn;
    hide Content, Synced, OpenVolume.Copies, Recognised, LayoutOf;
    FactsOf(was, device);
    ghost var v, view, files, used := was.m.volume, was.m.cache.view, was.m.Files(), was.m.bitmap.Used();
    st, m, sb := OpenFirst(device, slots, was);
    values := [];
    if st != Ok {
      return;
    }
    assert m.nodes[DB].Value() == m.Files()[DB] == files[DB];
    st, values := LoadInodes(m, ids);
    AllLoaded(v, view, files, used, ids, values);
  }

  lemma FitsAgain(vol: OpenVolume, files: seq<Inode>, view: seq<Block>, used: set<nat>)
    requires Facts(vol.m.volume, view, files, used, vol.ids) && vol.m.Files() == files
    requires |vol.sb| == SUPERBLOCK_SIZE && Recognised(vol.sb) && LayoutOf(vol.sb) == vol.m.volume
    ensures vol.Fitting()
  {
    hide Owns, OwnRecords, RecordIn, Content, Recognised, LayoutOf;
    assert forall k :: 0 <= k < |files| ==> vol.m.nodes[k].Value() == files[k];
  }

  /** The copies follow from the superblock and the bytes of the file of inodes. */
  lemma SameCopies(vol: OpenVolume, sb: Block, c: Block, copies: seq<Inode>)
    requires ROOT < |vol.ids| == |vol.m.nodes| == |copies| && |sb| == SUPERBLOCK_SIZE && vol.sb == sb
    requires Text(vol.m, DB) == c
    requires forall k :: 0 <= k < |copies| ==> copies[k] == Copy(sb, c, vol.ids, k)
    ensures vol.Copies() == copies
  {
    hide Copy, Content;
  }

  /**
   * Mounts the device of a synced volume with a cache of any size. All that is known of the volume is on the device,
   * but for the records of its inodes, which are the numbers in the directories. Its inodes and blocks are as before.
   */
  method Open(device: SectorDevice, slots: nat, ids: seq<nat>, ghost was: OpenVolume)
    returns (st: Status, vol: OpenVolume)
    requires Synced(was, device) && 0 < slots && ids == was.ids
    modifies device
    ensures st == Ok && fresh(vol) && vol.Valid() && vol.sb == old(was.sb) && vol.ids == ids
    ensures vol.m.volume == was.m.volume
    ensures vol.m.Files() == old(was.m.Files()) && vol.m.cache.raw.device == device
    ensures vol.m.cache.view == old(was.m.cache.view) && vol.m.bitmap.Used() == old(was.m.bitmap.Used())
    ensures vol.m.bitmap.hint == 0
    ensures |vol.ids| == |vol.m.nodes| && vol.Copies() == vol.m.Files()
    ensures forall k :: 0 <= k < |vol.m.nodes| ==> !vol.m.nodes[k].dirty
  {
    hide Mounted.Valid, BlockBitmap.Used, Owns, Synced, OpenVolume.Fitting, Recognised, LayoutOf, Copy, Content;
    FactsOf(was, device);
    CopiesOf(was, device);
    ghost var view, files, used, c := was.m.cache.view, was.m.Files(), was.m.bitmap.Used(), Text(was.m, DB);
    var m, sb, values;
    st, m, sb, values := LoadAll(device, slots, ids, was);
    m := WithInodes(m, values);
    vol := new OpenVolume(m, ids, sb);
    FitsAgain(vol, files, view, used);
    assert Text(vol.m, DB) == Content(view, vol.m.Files()[DB]) == c;
    SameCopies(vol, sb, c, files);
  }

  /** Operations on other files leave file j. */
  lemma {:induction false} AfterUntouched(cs: seq<Block>, ops: seq<FileRuns.Op>, outs: seq<Outcome>, n: nat, j: nat)
    requires n <= |ops| && n <= |outs| && j < |cs| && forall k :: 0 <= k < n ==> ops[k].i != j
    ensures FileRuns.After(cs, ops, outs, n)[j] == cs[j]
  {
    if n > 0 {
      AfterUntouched(cs, ops, outs, n - 1, j);
    }
  }

  /** No write has failed. */
  predicate AllWritten(ops: seq<FileRuns.Op>, outs: seq<Outcome>)
    requires |outs| == |ops|
  {
    forall k :: 0 <= k < |ops| && ops[k].Write? ==> outs[k].st == Ok
  }

  /** After a run without a failed write, every inode is marked or has a copy that is up to date, as before it. */
  lemma StillMarked(copies: seq<Inode>, files0: seq<Inode>, marks0: seq<bool>, files: seq<Inode>, marks: seq<bool>,
                    ops: seq<FileRuns.Op>, outs: seq<Outcome>)
    requires Tracked(files0, marks0, files, marks, ops, outs, |ops|) && |outs| == |ops| && AllWritten(ops, outs)
    requires |copies| == |files0| && forall k :: 0 <= k < |copies| ==> marks0[k] || copies[k] == files0[k]
    ensures forall k :: 0 <= k < |copies| ==> marks[k] || copies[k] == files[k]
  {
  }

  /** A run on the files of a volume, but not on that of inodes, leaves the copies of the inodes. */
  method RunOn(vol: OpenVolume, ops: seq<FileRuns.Op>) returns (outs: seq<Outcome>, ghost trace: seq<Snapshot>)
    requires vol.Valid() && vol.m.bitmap.Fits() && (forall k :: 0 <= k < |ops| ==> DB < ops[k].i < |vol.m.nodes|)
    requires Room(Contents(vol.m.Now()), Pending(ops, 0))
    modifies vol.m.cache, vol.m.cache.raw, vol.m.cache.raw.device, vol.m.cache.lru, vol.m.cache.hash, vol.m.bitmap`hint
    modifies vol.m.bitmap.buffer
    modifies vol.m.nodes, set n | n in vol.m.nodes :: n.ranges
    ensures vol.Valid() && vol.m.bitmap.Fits() && |outs| == |ops|
    ensures Explained(trace, vol.m.volume, ops, outs, |ops|)
    ensures trace[0] == old(vol.m.Now()) && trace[|ops|] == vol.m.Now()
    ensures vol.Copies() == old(vol.Copies())
    ensures old(vol.Marked()) && AllWritten(ops, outs) ==> vol.Marked()
  {
    hide Mounted.Valid, BlockBitmap.Used, BlockBitmap.Fits, Content;
    hide Room, Pending, Recognised, LayoutOf, OwnRecords, Copy;
    ghost var cs, copies, files, marks := Contents(vol.m.Now()), vol.Copies(), vol.m.Files(), vol.m.Marks();
    outs, trace := FileRuns.Run(vol.m, ops);
    vol.m.Parts();
    AfterUntouched(cs, ops, outs, |ops|, DB);
    assert Text(vol.m, DB) == Contents(vol.m.Now())[DB] == cs[DB];
    assert !Touched(ops, |ops|, DB);
    if AllWritten(ops, outs) && old(vol.Marked()) {
      StillMarked(copies, files, marks, vol.m.Files(), vol.m.Marks(), ops, outs);
    }
  }

  lemma SameTexts(a: OpenVolume, view: seq<Block>, files: seq<Inode>, texts: seq<Block>)
    requires 0 < |a.m.nodes| == |texts| && a.m.cache.view == view && a.m.Files() == files
    requires texts == seq(|files|, k requires 0 <= k < |files| => if k == DB then [] else Content(view, files[k]))
    ensures a.Texts() == texts
  {
    hide Content;
  }

  lemma TextsOf(a: OpenVolume)
    requires 0 < |a.m.nodes|
    ensures var view, files := a.m.cache.view, a.m.Files();
            a.Texts() == seq(|files|, k requires 0 <= k < |files| => if k == DB then [] else Content(view, files[k]))
  {
    hide Content;
  }

  /**
   * A sync, and a mount of the device with a cache of any size, when every inode that has changed is marked: all files
   * are as before.
   */
  method SyncThenOpen(vol: OpenVolume, slots: nat) returns (st: Status, vol': OpenVolume)
    requires vol.Valid() && vol.Marked() && 0 < slots && SUPERBLOCK_SIZE <= vol.m.cache.raw.device.sectorSize
    modifies vol`sb, vol.m.cache, vol.m.cache.raw, vol.m.cache.raw.device, vol.m.cache.lru, vol.m.cache.hash
    modifies vol.m.bitmap`hint, vol.m.bitmap.buffer
    modifies vol.m.nodes, vol.m.nodes[DB].ranges
    ensures st == Ok && vol'.Valid() && vol'.Marked() && vol'.ids == vol.ids && vol'.m.volume == vol.m.volume
    ensures vol'.m.Files() == old(vol.m.Files()) && vol'.Texts() == old(vol.Texts())
  {
    hide Mounted.Valid, BlockBitmap.Used, Content, Recognised, LayoutOf;
    hide OwnRecords, OnDevice, OpenVolume.Copies, OpenVolume.Texts, Flushed;
    st := vol.SyncAll();
    TextsOf(vol);
    ghost var view, files, texts := vol.m.cache.view, vol.m.Files(), vol.Texts();
    st, vol' := Open(vol.m.cache.raw.device, slots, vol.ids, vol);
    SameTexts(vol', view, files, texts);
  }

  /** The texts of the files are their contents. */
  lemma TextsNow(vol: OpenVolume)
    requires vol.m.bitmap.Fits() && 0 < |vol.m.nodes|
    ensures |Contents(vol.m.Now())| == |vol.m.nodes|
    ensures forall k :: DB < k < |vol.m.nodes| ==> vol.Texts()[k] == Contents(vol.m.Now())[k]
  {
    hide Content, BlockBitmap.Used;
  }

  /**
   * Any run of operations on files, a sync, and a mount of the device with a cache of any size. If no write failed,
   * the files of the new mount are those that the operations made of independent byte strings, and the next run
   * may begin.
   */
  method RunThenRemount(vol: OpenVolume, ops: seq<FileRuns.Op>, slots: nat)
    returns (outs: seq<Outcome>, st: Status, vol': OpenVolume?, ghost trace: seq<Snapshot>)
    requires vol.Valid() && vol.m.bitmap.Fits() && vol.Marked()
    requires forall k :: 0 <= k < |ops| ==> DB < ops[k].i < |vol.m.nodes|
    requires Room(Contents(vol.m.Now()), Pending(ops, 0)) && 0 < slots
    requires SUPERBLOCK_SIZE <= vol.m.cache.raw.device.sectorSize
    modifies vol`sb, vol.m.cache, vol.m.cache.raw, vol.m.cache.raw.device, vol.m.cache.lru, vol.m.cache.hash
    modifies vol.m.bitmap`hint, vol.m.bitmap.buffer
    modifies vol.m.nodes, set n | n in vol.m.nodes :: n.ranges
    ensures st == Ok && |outs| == |ops| && Explained(trace, vol.m.volume, ops, outs, |ops|)
    ensures trace[0] == old(vol.m.Now()) && |trace[|ops|].files| == |vol.m.nodes|
    ensures vol' != null <==> AllWritten(ops, outs)
    ensures vol' != null ==> vol'.Valid() && vol'.Marked() && vol'.ids == vol.ids && vol'.m.volume == vol.m.volume
    ensures vol' != null ==> |vol'.m.nodes| == |vol.m.nodes|
    ensures vol' != null ==> forall k :: DB < k < |vol.m.nodes| ==>
              Text(vol'.m, k) == After(old(Contents(vol.m.Now())), ops, outs, |ops|)[k]
  {
    hide Mounted.Valid, BlockBitmap.Used, BlockBitmap.Fits, Content, Room;
    hide Pending, Recognised, LayoutOf, OwnRecords, OnDevice, Explained;
    hide OpenVolume.Copies, OpenVolume.Marked, Flushed;
    vol' := null;
    outs, trace := RunOn(vol, ops);
    ExplainedBytes(trace, vol.m.volume, ops, outs, |ops|, |ops|);
    TextsNow(vol);
    if AllWritten(ops, outs) {
      st, vol' := SyncThenOpen(vol, slots);
    } else {
      st := vol.SyncAll();
    }
  }
}
