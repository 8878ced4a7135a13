/** The inodes of a mounted volume and their stored copies: in the superblock, and in the file of inodes. */
module InodeStore {
  import opened Common
  import opened BlockCaches
  import opened Bitmaps
  import opened Ranges
  import opened FileLayout
  import opened FileBytes
  import opened FileSteps
  import opened Files
  import opened Directories
  import opened Superblocks
  import opened StoredInodes
  import opened Volumes

  /** Where the file of inodes and the root directory are among the inodes in memory. */
  const DB: nat := 0
  const ROOT: nat := 1

  /** Record r of the file of inodes. */
  ghost function RecordIn(c: Block, r: nat): (n: Inode) {
    if INODE_SIZE * r + INODE_SIZE <= |c| then InodeOf(c[INODE_SIZE * r..INODE_SIZE * r + INODE_SIZE]) else EMPTY_INODE
  }

  /**
   * The copy of inode k: the first two are in the superblock, and the others are records of the file of inodes, which
   * has bytes c.
   */
  ghost function Copy(sb: Block, c: Block, ids: seq<nat>, k: nat): (n: Inode)
    requires |sb| == SUPERBLOCK_SIZE && k < |ids|
  {
    if k == DB then InodeAt(sb, DB_AT) else if k == ROOT then InodeAt(sb, ROOT_AT) else RecordIn(c, ids[k])
  }

  /** Writing a record changes that record only. */
  lemma RecordWritten(c: Block, r: nat, n: Inode)
    requires INODE_SIZE * r + INODE_SIZE <= |c| && Storable(n)
    ensures var c' := Overwrite(c, INODE_SIZE * r, InodeBytes(n));
            |c'| == |c| && RecordIn(c', r) == n && forall q: nat :: q != r ==> RecordIn(c', q) == RecordIn(c, q)
  {
    hide InodeOf, InodeBytes;
    var c' := Overwrite(c, INODE_SIZE * r, InodeBytes(n));
    InodeRoundTrip(n);
    assert c'[INODE_SIZE * r..INODE_SIZE * r + INODE_SIZE] == InodeBytes(n);
    forall q: nat | q != r && INODE_SIZE * q + INODE_SIZE <= |c|
      ensures c'[INODE_SIZE * q..INODE_SIZE * q + INODE_SIZE] == c[INODE_SIZE * q..INODE_SIZE * q + INODE_SIZE]
    {
    }
  }

  /** The records of the inodes are all different. */
  ghost predicate OwnRecords(ids: seq<nat>) {
    forall j, k :: ROOT < j < k < |ids| ==> ids[j] != ids[k]
  }

  lemma CopyPut(sb: Block, c: Block, ids: seq<nat>, k: nat, n: Inode)
    requires |sb| == SUPERBLOCK_SIZE && ROOT < |ids| && k <= ROOT && Storable(n)
    ensures var sb' := Splice(sb, if k == DB then DB_AT else ROOT_AT, InodeBytes(n));
            |sb'| == |sb| && forall j :: 0 <= j < |ids| ==>
                Copy(sb', c, ids, j) == if j == k then n else Copy(sb, c, ids, j)
  {
    hide Splice, InodeBytes, InodeAt, RecordIn;
    var at := if k == DB then DB_AT else ROOT_AT;
    var sb' := Splice(sb, at, InodeBytes(n));
    InodePut(sb, at, n);
    assert InodeAt(sb', at) == n;
    forall j | 0 <= j < |ids|
      ensures Copy(sb', c, ids, j) == if j == k then n else Copy(sb, c, ids, j)
    {
      assert j == DB != k ==> Copy(sb, c, ids, j) == InodeAt(sb, DB_AT) == InodeAt(sb', DB_AT);
    }
  }

  lemma CopyWritten(sb: Block, c: Block, ids: seq<nat>, k: nat, n: Inode)
    requires |sb| == SUPERBLOCK_SIZE && ROOT < k < |ids| && OwnRecords(ids) && Storable(n)
    requires INODE_SIZE * ids[k] + INODE_SIZE <= |c|
    ensures var c' := Overwrite(c, INODE_SIZE * ids[k], InodeBytes(n));
            forall j :: 0 <= j < |ids| ==> Copy(sb, c', ids, j) == if j == k then n else Copy(sb, c, ids, j)
  {
    hide InodeBytes, InodeAt, Storable, RecordIn, Overwrite;
    RecordWritten(c, ids[k], n);
  }

  /** The superblock and the file of inodes are as before, but for the copies of the inodes of these records. */
  ghost predicate Beside(sb: Block, sb': Block, c: Block, c': Block, ids: seq<nat>) {
    && |sb'| == |sb| && |c'| == |c|
    && (forall b :: 0 <= b < |sb| && !(DB_AT <= b < DB_AT + INODE_SIZE) && !(ROOT_AT <= b < ROOT_AT + INODE_SIZE) ==>
          sb'[b] == sb[b])
    && (forall q: nat :: (forall k :: ROOT < k < |ids| ==> ids[k] != q) ==> RecordIn(c', q) == RecordIn(c, q))
  }

  lemma BesideSelf(sb: Block, c: Block, ids: seq<nat>)
    ensures Beside(sb, sb, c, c, ids)
  {
  }

  lemma BesideTwice(sb: Block, sb': Block, sb'': Block, c: Block, c': Block, c'': Block, ids: seq<nat>)
    requires Beside(sb, sb', c, c', ids) && Beside(sb', sb'', c', c'', ids)
    ensures Beside(sb, sb'', c, c'', ids)
  {
    hide RecordIn;
  }

  lemma BesidePut(sb: Block, c: Block, ids: seq<nat>, k: nat, n: Inode)
    requires |sb| == SUPERBLOCK_SIZE && k <= ROOT && Storable(n)
    ensures Beside(sb, Splice(sb, if k == DB then DB_AT else ROOT_AT, InodeBytes(n)), c, c, ids)
  {
    hide RecordIn, InodeBytes;
  }

  lemma BesideWritten(sb: Block, c: Block, ids: seq<nat>, k: nat, n: Inode)
    requires ROOT < k < |ids| && Storable(n) && INODE_SIZE * ids[k] + INODE_SIZE <= |c|
    ensures Beside(sb, sb, c, Overwrite(c, INODE_SIZE * ids[k], InodeBytes(n)), ids)
  {
    hide InodeBytes, Storable, RecordIn, Overwrite;
    RecordWritten(c, ids[k], n);
  }

  lemma {:induction false} SpanSize(first: nat, count: nat)
    ensures |Span(first, count)| == count
  {
    if count > 0 {
      SpanSize(first, count - 1);
    }
  }

  lemma OwnedCounts(view: seq<Block>, n: Inode)
    ensures |FileBlocks(view, n)| <= |Owned(view, n)| && OwnedSet(view, n) == Elems(Owned(view, n))
    ensures n.indirect != 0 ==> n.indirect in OwnedSet(view, n)
  {
  }

  /** A file has no more blocks than the volume, so that its numbers fit their fields. */
  lemma FileStorable(view: seq<Block>, files: seq<Inode>, i: nat, used: set<nat>, v: Volume)
    requires Owns(view, files, used, v) && i < |files| && files[i].fileSize < U32 && v.blocks < U32
    ensures Storable(files[i])
  {
    hide FileBlocks, Owned, Span, Flat, Reserved;
    var n, own := files[i], Owned(view, files[i]);
    assert Sound(view, n, v) && OwnedSet(view, n) <= used - Reserved(v);
    OwnedCounts(view, n);
    DistinctSize(own);
    SpanSize(0, v.blocks);
    SubsetSize(Elems(own), Span(0, v.blocks));
    assert n.indirect != 0 ==> n.indirect in Span(0, v.blocks);
  }

  /** The copies after the first k of the inodes marked dirty were stored. */
  ghost function Flushed(copies: seq<Inode>, files: seq<Inode>, dirty: seq<bool>, k: nat): (r: seq<Inode>)
    requires |copies| == |files| == |dirty|
    ensures |r| == |copies| && forall j :: 0 <= j < |r| ==> r[j] == if j < k && dirty[j] then files[j] else copies[j]
  {
    seq(|copies|, j requires 0 <= j < |copies| => if j < k && dirty[j] then files[j] else copies[j])
  }

  lemma FlushedStep(copies: seq<Inode>, files: seq<Inode>, dirty: seq<bool>, k: nat)
    requires |copies| == |files| == |dirty| && k < |files|
    ensures Flushed(copies, files, dirty, 0) == copies
    ensures Flushed(copies, files, dirty, k + 1) ==
            if dirty[k] then Flushed(copies, files, dirty, k)[k := files[k]] else Flushed(copies, files, dirty, k)
  {
  }

  /** The copies are right after a flush exactly when they were for the inodes that are not marked dirty. */
  lemma FlushedRight(copies: seq<Inode>, files: seq<Inode>, dirty: seq<bool>)
    requires |copies| == |files| == |dirty|
    ensures Flushed(copies, files, dirty, |files|) == files <==>
              forall k :: 0 <= k < |files| ==> dirty[k] || copies[k] == files[k]
  {
    var r := Flushed(copies, files, dirty, |files|);
    if r == files {
      forall k | 0 <= k < |files|
        ensures dirty[k] || copies[k] == files[k]
      {
        assert r[k] == files[k];
      }
    }
  }

  /** All used blocks keep their bytes, but for those of file i and the reserved ones. */
  ghost predicate UsedKept(a: Snapshot, b: Snapshot, i: nat, v: Volume) {
    && i < |a.files| && |b.view| == |a.view|
    && forall x :: x in a.used && x !in OwnedSet(a.view, a.files[i]) && x !in Reserved(v) && x < |a.view| ==>
         b.view[x] == a.view[x]
  }

  lemma UsedKeptBy(a: Snapshot, mid: Snapshot, b: Snapshot, i: nat, v: Volume)
    requires Took(a, mid, i) && |b.view| == |mid.view|
    requires forall x :: 0 <= x < |b.view| && x !in Reserved(v) ==> b.view[x] == mid.view[x]
    ensures UsedKept(a, b, i, v)
  {
    hide OwnedSet, Reserved;
  }

  class OpenVolume {
    const m: Mounted
    const ids: seq<nat> // the records of the inodes; the first two are not used
    var sb: Block

    constructor (m: Mounted, ids: seq<nat>, sb: Block)
      ensures this.m == m && this.ids == ids && this.sb == sb
    {
      this.m, this.ids, this.sb := m, ids, sb;
    }

    /** The layout is that of the superblock, and inodes and records fit. */
    ghost predicate Fitting()
      reads `sb, m.nodes
    {
      && |sb| == SUPERBLOCK_SIZE <= m.volume.blockSize && Recognised(sb) && LayoutOf(sb) == m.volume
      && 0 < m.volume.bitmapFirst && m.volume.bitmapFirst + m.volume.bitmapCount <= m.volume.blocks
      && ROOT < |ids| == |m.nodes| && OwnRecords(ids)
      && (forall k :: ROOT < k < |ids| ==> INODE_SIZE * ids[k] + INODE_SIZE <= m.nodes[DB].fileSize)
      && (forall k :: 0 <= k < |m.nodes| ==> m.nodes[k].fileSize < U32)
    }

    ghost predicate Valid()
      reads `sb, m.cache, m.cache.raw, m.cache.raw.device, m.cache.lru, m.cache.hash, m.bitmap, m.bitmap.buffer
      reads m.nodes, set n | n in m.nodes :: n.ranges
    {
      m.Valid() && Fitting()
    }

    /** The stored copy of inode k. */
    ghost function Stored(k: nat): (n: Inode)
      requires k < |ids| == |m.nodes| && |sb| == SUPERBLOCK_SIZE
      reads `sb, m.cache, m.nodes[DB], m.nodes[DB].ranges
    {
      Copy(sb, Text(m, DB), ids, k)
    }

    ghost function Copies(): (ns: seq<Inode>)
      requires ROOT < |ids| == |m.nodes| && |sb| == SUPERBLOCK_SIZE
      reads `sb, m.cache, m.nodes[DB], m.nodes[DB].ranges
      ensures |ns| == |ids| && forall k :: 0 <= k < |ids| ==> ns[k] == Stored(k)
    {
      var sb, c := sb, Text(m, DB);
      seq(|ids|, k requires 0 <= k < |ids| => Copy(sb, c, ids, k))
    }

    /** What the files hold, but that of inodes. */
    ghost function Texts(): (cs: seq<Block>)
      requires 0 < |m.nodes|
      reads m.cache, m.nodes, set n | n in m.nodes :: n.ranges
      ensures |cs| == |m.nodes| && forall k :: 0 < k < |m.nodes| ==> cs[k] == Text(m, k)
    {
      var view, files := m.cache.view, m.Files();
      seq(|files|, k requires 0 <= k < |files| => if k == DB then [] else Content(view, files[k]))
    }

    lemma ValueStorable(k: nat)
      requires Valid() && k < |m.nodes|
      ensures Storable(m.nodes[k].Value())
    {
      hide BlockCache.Healthy, BlockBitmap.Used, BlockBitmap.Fits, Owns, OwnRecords, Recognised, LayoutOf;
      FileStorable(m.cache.view, m.Files(), k, m.bitmap.Used(), m.volume);
    }

    /** The bytes of inode k. */
    method NodeBytes(k: nat) returns (bytes: Block)
      requires Valid() && k < |m.nodes|
      ensures bytes == InodeBytes(m.nodes[k].Value()) && Storable(m.nodes[k].Value())
    {
      hide Mounted.Valid;
      ValueStorable(k);
      var n := m.nodes[k];
      bytes := InodeBytes(Inode(n.fileSize, n.blockCount, n.ranges[..], n.indirect, n.double));
    }

    lemma RecordThere(k: nat)
      requires Fitting() && ROOT < k < |m.nodes|
      ensures |ids| == |m.nodes| && INODE_SIZE * ids[k] + INODE_SIZE <= m.nodes[DB].fileSize < U32
    {
    }

    twostate lemma StillFitting()
      requires old(Fitting()) && sb == old(sb) && m.Files() == old(m.Files())
      ensures Fitting()
    {
      hide Recognised, LayoutOf, OwnRecords;
      assert forall k :: 0 <= k < |m.nodes| ==> m.nodes[k].fileSize == m.Files()[k].fileSize;
    }

    /** Stores inode k in its record. */
    method UpdateRecord(k: nat) returns (st: Status)
      requires Valid() && ROOT < k < |m.nodes|
      modifies m.cache, m.cache.raw, m.cache.raw.device, m.cache.lru, m.cache.hash, m.bitmap`hint, m.bitmap.buffer
      modifies m.nodes[DB], m.nodes[DB].ranges
      ensures st == Ok && Storable(old(m.nodes[k].Value())) && INODE_SIZE * ids[k] + INODE_SIZE <= |old(Text(m, DB))|
      ensures Text(m, DB) == Overwrite(old(Text(m, DB)), INODE_SIZE * ids[k], InodeBytes(old(m.nodes[k].Value())))
      ensures Valid() && m.Files() == old(m.Files()) && forall j :: 0 < j < |m.nodes| ==> Text(m, j) == old(Text(m, j))
      ensures Took(old(m.Now()), m.Now(), DB) && m.Now().used == old(m.Now()).used
    {
      hide Mounted.Valid, Fitting, Content, InodeBytes, Storable;
      hide Overwrite, Blocked, Owned, Took, BlockBitmap.Used, Ended;
      RecordThere(k);
      TextSize(m, DB);
      var bytes := NodeBytes(k);
      ghost var written, at;
      st, written, at := InodeWriteFileRec(m, DB, ids[k], bytes);
      assert bytes[..written] == bytes;
      StillFitting();
    }

    /** The copy of inode k is up to date, and the other copies are as before. */
    twostate predicate OneStored(k: nat)
      reads `sb, m.cache, m.nodes, set n | n in m.nodes :: n.ranges
    {
      && k < |ids| == |m.nodes| && |sb| == SUPERBLOCK_SIZE == |old(sb)|
      && forall j :: 0 <= j < |ids| ==> Stored(j) == if j == k then m.nodes[k].Value() else old(Stored(j))
    }

    /** Stores inode k in the superblock. */
    method UpdateSuperblock(k: nat)
      requires Valid() && k <= ROOT
      modifies `sb
      ensures Valid() && Beside(old(sb), sb, Text(m, DB), Text(m, DB), ids)
      ensures OneStored(k)
    {
      hide Mounted.Valid, Content, InodeBytes, Recognised, LayoutOf, Splice, Copy, OwnRecords, Beside;
      var at := if k == DB then DB_AT else ROOT_AT;
      var bytes := NodeBytes(k);
      ghost var n, c := m.nodes[k].Value(), Text(m, DB);
      InodePut(sb, at, n);
      CopyPut(sb, c, ids, k, n);
      BesidePut(sb, c, ids, k, n);
      sb := Splice(sb, at, bytes);
      assert Text(m, DB) == c && m.nodes[k].Value() == n;
    }

    /** Stores inode k. */
    method InodeDbUpdate(k: nat) returns (st: Status)
      requires Valid() && k < |m.nodes|
      modifies `sb, m.cache, m.cache.raw, m.cache.raw.device, m.cache.lru, m.cache.hash, m.bitmap`hint, m.bitmap.buffer
      modifies m.nodes[DB], m.nodes[DB].ranges
      ensures Valid() && st == Ok && m.Files() == old(m.Files())
      ensures OneStored(k) && Beside(old(sb), sb, old(Text(m, DB)), Text(m, DB), ids)
      ensures forall j :: 0 < j < |m.nodes| ==> Text(m, j) == old(Text(m, j))
      ensures Took(old(m.Now()), m.Now(), DB) && m.Now().used == old(m.Now()).used
    {
      hide Mounted.Valid, Content, InodeBytes, Overwrite, Recognised, LayoutOf, Splice, Copy, Beside, Took;
      m.Parts();
      TookSelf(m.Now(), DB);
      if k == DB || k == ROOT {
        UpdateSuperblock(k);
        return Ok;
      }
      ghost var n, c := m.nodes[k].Value(), Text(m, DB);
      st := UpdateRecord(k);
      CopyWritten(sb, c, ids, k, n);
      BesideWritten(sb, c, ids, k, n);
    }

    twostate lemma CopiesUpdated(k: nat)
      requires OneStored(k) && ROOT < |ids| && m.Files() == old(m.Files())
      ensures Copies() == old(Copies())[k := old(m.Files())[k]]
    {
      hide Content, Copy;
      var copies, r := Copies(), old(Copies())[k := old(m.Files())[k]];
      forall j | 0 <= j < |ids|
        ensures copies[j] == r[j]
      {
        assert copies[j] == Stored(j);
      }
    }

    twostate lemma CopiesSame()
      requires ROOT < |ids| == |m.nodes| && |sb| == SUPERBLOCK_SIZE
      requires sb == old(sb) && Text(m, DB) == old(Text(m, DB))
      ensures Copies() == old(Copies())
    {
      hide Content, Copy;
      var copies, r := Copies(), old(Copies());
      forall j | 0 <= j < |ids|
        ensures copies[j] == r[j]
      {
        assert copies[j] == Stored(j);
      }
    }

    /** Stores inode k, and marks it clean. */
    method FlushOne(k: nat) returns (st: Status)
      requires Valid() && k < |m.nodes|
      modifies `sb, m.cache, m.cache.raw, m.cache.raw.device, m.cache.lru, m.cache.hash, m.bitmap`hint, m.bitmap.buffer
      modifies m.nodes[DB], m.nodes[k], m.nodes[DB].ranges
      ensures Valid() && st == Ok && m.Files() == old(m.Files()) && Texts() == old(Texts())
      ensures |sb| == SUPERBLOCK_SIZE && Copies() == old(Copies())[k := old(m.Files())[k]] && !m.nodes[k].dirty
      ensures forall j :: 0 < j < |m.nodes| && j != k ==> m.nodes[j].dirty == old(m.nodes[j].dirty)
      ensures Beside(old(sb), sb, old(Text(m, DB)), Text(m, DB), ids)
      ensures Took(old(m.Now()), m.Now(), DB) && m.Now().used == old(m.Now()).used
    {
      hide Mounted.Valid, Content, Recognised, LayoutOf, Copy, OwnRecords, Beside, Took;
      m.NodesApart();
      st := InodeDbUpdate(k);
      if st != Ok {
        return;
      }
      CopiesUpdated(k);
      label L:
      m.MarkInode(k, false);
      CopiesSame@L();
    }

    /**
     * The flush has come to inode k: those before are clean, but for the file of inodes, and the others are marked as
     * they were.
     */
    ghost predicate Flushing(start: Snapshot, copies: seq<Inode>, dirty: seq<bool>, texts: seq<Block>, sb0: Block,
                             k: nat)
      reads `sb, m.cache, m.bitmap.buffer, m.nodes, set n | n in m.nodes :: n.ranges
    {
      && |copies| == |start.files| == |dirty| == |m.nodes| == |ids| && ROOT < |ids| && |sb| == SUPERBLOCK_SIZE
      && m.Files() == start.files && Texts() == texts && Copies() == Flushed(copies, start.files, dirty, k)
      && (k == 0 ==> m.nodes[DB].dirty == dirty[DB]) && Beside(sb0, sb, Bytes(start, DB), Text(m, DB), ids)
      && m.bitmap.Fits() && Took(start, m.Now(), DB) && m.Now().used == start.used
      && forall j :: 0 < j < |m.nodes| ==> m.nodes[j].dirty == (k <= j && dirty[j])
    }

    lemma FlushStarts()
      requires Valid()
      ensures ROOT < |ids| == |m.nodes| && |sb| == SUPERBLOCK_SIZE
      ensures Flushing(m.Now(), Copies(), m.Marks(), Texts(), sb, 0)
      ensures m.Now().files == m.Files() && Bytes(m.Now(), DB) == Text(m, DB)
    {
      hide Recognised, LayoutOf, Copy, OwnRecords, Content, Flushed, Beside, Took, Owns, BlockCache.Healthy;
      BesideSelf(sb, Text(m, DB), ids);
      FlushedStep(Copies(), m.Files(), m.Marks(), 0);
      TookSelf(m.Now(), DB);
    }

    lemma FlushEnds(start: Snapshot, copies: seq<Inode>, dirty: seq<bool>, texts: seq<Block>, sb0: Block)
      requires Flushing(start, copies, dirty, texts, sb0, |m.nodes|)
      ensures |copies| == |start.files| == |dirty| == |m.nodes| == |ids| && ROOT < |ids| && |sb| == SUPERBLOCK_SIZE
      ensures m.Files() == start.files && Texts() == texts
      ensures Copies() == Flushed(copies, start.files, dirty, |m.nodes|)
      ensures Beside(sb0, sb, Bytes(start, DB), Text(m, DB), ids)
      ensures m.bitmap.Fits() && Took(start, m.Now(), DB) && m.Now().used == start.used
      ensures forall j :: 0 < j < |m.nodes| ==> !m.nodes[j].dirty
    {
    }

    /** Stores inode k if it is dirty. */
    method FlushNext(k: nat, ghost start: Snapshot, ghost copies: seq<Inode>, ghost dirty: seq<bool>,
                     ghost texts: seq<Block>, ghost sb0: Block)
      returns (st: Status)
      requires Valid() && k < |m.nodes| && Flushing(start, copies, dirty, texts, sb0, k)
      modifies `sb, m.cache, m.cache.raw, m.cache.raw.device, m.cache.lru, m.cache.hash, m.bitmap`hint, m.bitmap.buffer
      modifies m.nodes[DB], m.nodes[k], m.nodes[DB].ranges
      ensures Valid() && st == Ok && Flushing(start, copies, dirty, texts, sb0, k + 1)
    {
      hide Mounted.Valid, Fitting, Flushed, Copies, Texts, Beside, Took, Mounted.Now;
      FlushedStep(copies, start.files, dirty, k);
      if !m.nodes[k].dirty {
        return Ok;
      }
      ghost var sb1, db1, mid := sb, Text(m, DB), m.Now();
      st := FlushOne(k);
      m.Parts();
      BesideTwice(sb0, sb1, sb, Bytes(start, DB), db1, Text(m, DB), ids);
      TookTwice(start, mid, m.Now(), DB);
    }

    /** Stores all dirty inodes. */
    method IcacheFlushAll() returns (st: Status)
      requires Valid()
      modifies `sb, m.cache, m.cache.raw, m.cache.raw.device, m.cache.lru, m.cache.hash, m.bitmap`hint, m.bitmap.buffer
      modifies m.nodes, m.nodes[DB].ranges
      ensures Valid() && st == Ok && m.Files() == old(m.Files()) && Texts() == old(Texts())
      ensures Copies() == Flushed(old(Copies()), old(m.Files()), old(m.Marks()), |m.nodes|)
      ensures forall j :: 0 < j < |m.nodes| ==> !m.nodes[j].dirty
      ensures Beside(old(sb), sb, old(Text(m, DB)), Text(m, DB), ids)
      ensures Took(old(m.Now()), m.Now(), DB) && m.Now().used == old(m.Now()).used
    {
      hide Mounted.Valid, Mounted.Now, Text, Bytes, Fitting, Flushed, Copies, Texts, Flushing, Beside, Took;
      FlushStarts();
      m.Parts();
      ghost var start, copies, dirty, texts, sb0 := m.Now(), Copies(), m.Marks(), Texts(), sb;
      st := Ok;
      for k := 0 to |m.nodes|
        invariant Valid() && st == Ok && Flushing(start, copies, dirty, texts, sb0, k)
      {
        st := FlushNext(k, start, copies, dirty, texts, sb0);
        if st != Ok {
          return;
        }
      }
      FlushEnds(start, copies, dirty, texts, sb0);
    }

    /** Every inode is marked dirty or has a copy that is up to date. */
    ghost predicate Marked()
      requires ROOT < |ids| == |m.nodes| && |sb| == SUPERBLOCK_SIZE
      reads `sb, m.cache, m.nodes, set n | n in m.nodes :: n.ranges
    {
      forall k :: 0 <= k < |ids| ==> m.Marks()[k] || Copies()[k] == m.Files()[k]
    }

    /**
     * Stores the dirty inodes, the superblock and the bitmap, and flushes. All inodes then have copies that are up
     * to date on the device exactly when all that had changed were marked.
     */
    method SyncAll() returns (st: Status)
      requires Valid()
      modifies `sb, m.cache, m.cache.raw, m.cache.raw.device, m.cache.lru, m.cache.hash, m.bitmap`hint, m.bitmap.buffer
      modifies m.nodes, m.nodes[DB].ranges
      ensures Valid() && st == Ok && m.Files() == old(m.Files()) && Texts() == old(Texts()) && OnDevice(m, sb)
      ensures Copies() == Flushed(old(Copies()), old(m.Files()), old(m.Marks()), |m.nodes|)
      ensures Copies() == m.Files() <==> old(Marked())
      ensures Beside(old(sb), sb, old(Text(m, DB)), Text(m, DB), ids) && m.bitmap.Used() == old(m.bitmap.Used())
      ensures UsedKept(old(m.Now()), m.Now(), DB, m.volume)
    {
      hide Mounted.Valid, Content, Recognised, LayoutOf, Copy, OwnRecords, Flushed, OnDevice, Beside, Took, UsedKept;
      FlushedRight(Copies(), m.Files(), m.Marks());
      st := IcacheFlushAll();
      if st != Ok {
        return;
      }
      m.Parts();
      ghost var texts, copies, mid := Texts(), Copies(), m.Now();
      st := Sync(m, sb);
      m.Parts();
      UsedKeptBy(old(m.Now()), mid, m.Now(), DB, m.volume);
      assert Texts() == texts && Copies() == copies;
    }
  }
}
