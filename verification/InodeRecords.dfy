/** Adding records to the file of inodes and deleting them. */
module InodeRecords {
  import opened Common
  import opened FileLayout
  import opened FileBytes
  import opened FileSteps
  import opened Files
  import opened Directories
  import opened StoredInodes
  import opened InodeStore

  // Numbers that stand for the two inodes of the superblock.
  const INODE_DB_ID: nat := 0xFFFF_FFFE
  const ROOT_DIR_ID: nat := 0xFFFF_FFFF

  /** Writing a record, or the start of one at the end of the file, changes that record only. */
  lemma RecordPlaced(c: Block, r: nat, rec: Block)
    requires INODE_SIZE * r <= |c| && |rec| <= INODE_SIZE
    ensures var c' := Overwrite(c, INODE_SIZE * r, rec);
            && (|rec| == INODE_SIZE ==> RecordIn(c', r) == InodeOf(rec))
            && (forall q: nat :: q != r ==> RecordIn(c', q) == RecordIn(c, q))
            && (|rec| < INODE_SIZE && |c| < INODE_SIZE * r + INODE_SIZE ==> RecordIn(c', r) == RecordIn(c, r))
  {
    hide InodeOf;
    var c' := Overwrite(c, INODE_SIZE * r, rec);
    if |rec| == INODE_SIZE {
      assert c'[INODE_SIZE * r..INODE_SIZE * r + INODE_SIZE] == rec;
    }
    assert forall i :: 0 <= i < |c| && !(INODE_SIZE * r <= i < INODE_SIZE * r + |rec|) ==> c'[i] == c[i];
    forall q: nat | q != r && INODE_SIZE * q + INODE_SIZE <= |c|
      ensures c'[INODE_SIZE * q..INODE_SIZE * q + INODE_SIZE] == c[INODE_SIZE * q..INODE_SIZE * q + INODE_SIZE]
    {
      assert INODE_SIZE * q + INODE_SIZE <= INODE_SIZE * r || INODE_SIZE * r + INODE_SIZE <= INODE_SIZE * q;
    }
  }

  /** How many whole records there are. */
  function Count(c: Block): (n: nat)
    ensures INODE_SIZE * n <= |c| < INODE_SIZE * n + INODE_SIZE
  {
    |c| / INODE_SIZE
  }

  /** Record id is gone or blank, and the others are as before. */
  ghost predicate Emptied(c: Block, c': Block, id: nat) {
    forall q: nat :: RecordIn(c', q) == if q == id then EMPTY_INODE else RecordIn(c, q)
  }

  /** Whole records are as before. */
  ghost predicate Kept(c: Block, c': Block) {
    forall q: nat :: q < Count(c) ==> RecordIn(c', q) == RecordIn(c, q)
  }

  lemma KeptBehind(c: Block, pos: nat, rec: Block)
    requires INODE_SIZE * Count(c) <= pos <= |c|
    ensures Kept(c, Overwrite(c, pos, rec))
  {
    hide InodeOf;
    var c' := Overwrite(c, pos, rec);
    forall q: nat | q < Count(c)
      ensures c'[INODE_SIZE * q..INODE_SIZE * q + INODE_SIZE] == c[INODE_SIZE * q..INODE_SIZE * q + INODE_SIZE]
    {
    }
  }

  lemma OverwriteEnd(c: Block, pos: nat, rec: Block)
    requires pos <= |c|
    ensures pos + |rec| >= |c| ==> |Overwrite(c, pos, rec)| == pos + |rec|
    ensures pos == |c| ==> c <= Overwrite(c, pos, rec)
  {
  }

  lemma RecordCut(c: Block, r: nat)
    requires INODE_SIZE * r + INODE_SIZE <= |c| < INODE_SIZE * r + 2 * INODE_SIZE
    ensures Emptied(c, c[..INODE_SIZE * r], r)
  {
    hide InodeOf;
    var c' := c[..INODE_SIZE * r];
    forall q: nat | q < r
      ensures c'[INODE_SIZE * q..INODE_SIZE * q + INODE_SIZE] == c[INODE_SIZE * q..INODE_SIZE * q + INODE_SIZE]
    {
    }
  }

  lemma BlankReads()
    ensures InodeOf(Zeros(INODE_SIZE)) == EMPTY_INODE
  {
    EmptyInodeReads(0);
    assert Zeros(INODE_SIZE) == [0] + Zeros(63);
  }

  /** Adds a record for inode n at the end of the file of inodes. */
  method InodeDbAppend(m: Mounted, n: Inode) returns (st: Status, id: nat)
    requires m.Valid() && DB < |m.nodes| && Storable(n) && m.nodes[DB].fileSize + INODE_SIZE < U32
    modifies m.cache, m.cache.raw, m.cache.raw.device, m.cache.lru, m.cache.hash, m.bitmap`hint, m.bitmap.buffer
    modifies m.nodes[DB], m.nodes[DB].ranges
    ensures m.Valid() && m.OthersKept(DB) && (st == Ok || st == DoubleIndirectNeeded || st == ErrResourcesExhausted)
    ensures id == Count(old(Text(m, DB))) && (st == Ok ==> |Text(m, DB)| == INODE_SIZE * id + INODE_SIZE)
    ensures |old(Text(m, DB))| == INODE_SIZE * id ==> old(Text(m, DB)) <= Text(m, DB)
    ensures forall q: nat :: RecordIn(Text(m, DB), q) ==
              if st == Ok && q == id then n else RecordIn(old(Text(m, DB)), q)
    ensures m.nodes[DB].dirty == (old(m.nodes[DB].dirty) || !old(Blocked(m, DB, INODE_SIZE * id + INODE_SIZE)))
    ensures INODE_SIZE <= m.volume.blockSize ==> st == old(StatusUpTo(m, DB, INODE_SIZE * id + INODE_SIZE))
    ensures Taking(old(m.Now()), m.Now(), DB, st, m.volume)
  {
    hide Mounted.Valid, Content, InodeBytes, InodeOf, Overwrite, Taking;
    hide RecordIn, Mounted.OthersKept, Blocked, Ended, StatusUpTo;
    TextSize(m, DB);
    id := m.nodes[DB].fileSize / INODE_SIZE;
    InodeRoundTrip(n);
    var rec := InodeBytes(n);
    ghost var written, at;
    st, written, at := InodeWriteFileRec(m, DB, id, rec);
    assert st == Ok ==> rec[..written] == rec;
    RecordPlaced(old(Text(m, DB)), id, rec[..written]);
    OverwriteEnd(old(Text(m, DB)), INODE_SIZE * id, rec[..written]);
  }

  /** Writes a blank record, which goes to the end of the file if the place lies beyond. */
  method BlankRecord(m: Mounted, id: nat) returns (st: Status)
    requires m.Valid() && DB < |m.nodes| && m.nodes[DB].fileSize + INODE_SIZE < U32
    modifies m.cache, m.cache.raw, m.cache.raw.device, m.cache.lru, m.cache.hash, m.bitmap`hint, m.bitmap.buffer
    modifies m.nodes[DB], m.nodes[DB].ranges
    ensures m.Valid() && m.OthersKept(DB) && (st == Ok || st == DoubleIndirectNeeded || st == ErrResourcesExhausted)
    ensures id < Count(old(Text(m, DB))) ==>
              && st == Ok && m.nodes[DB].dirty && m.nodes[DB].Value() == old(m.nodes[DB].Value())
              && Emptied(old(Text(m, DB)), Text(m, DB), id)
    ensures id >= Count(old(Text(m, DB))) ==> Kept(old(Text(m, DB)), Text(m, DB))
    ensures id >= Count(old(Text(m, DB))) ==>
              var end := Mounted.Least(INODE_SIZE * id, |old(Text(m, DB))|) + INODE_SIZE;
              && m.nodes[DB].dirty == (old(m.nodes[DB].dirty) || !old(Blocked(m, DB, end)))
              && (INODE_SIZE <= m.volume.blockSize ==> st == old(StatusUpTo(m, DB, end)))
    ensures Taking(old(m.Now()), m.Now(), DB, st, m.volume)
  {
    hide Mounted.Valid, Content, InodeOf, Overwrite, RecordIn, Mounted.OthersKept, Blocked, Ended, StatusUpTo, Taking;
    TextSize(m, DB);
    if id < Count(Text(m, DB)) {
      NotBlocked(m, DB, INODE_SIZE * id + INODE_SIZE);
    }
    var rec := Zeros(INODE_SIZE);
    ghost var written, at;
    st, written, at := InodeWriteFileRec(m, DB, id, rec);
    ghost var c := old(Text(m, DB));
    if id < Count(c) {
      assert rec[..written] == rec;
      RecordPlaced(c, id, rec);
      BlankReads();
    } else {
      KeptBehind(c, Mounted.Least(RecordPos(INODE_SIZE, id), |c|), rec[..written]);
    }
  }

  /**
   * Deletes a record of the file of inodes: the last one is cut off, without marking the inode of the file dirty,
   * and any other is blanked. Beyond the last one a blank record is added. The two inodes of the superblock stay.
   */
  method InodeDbDelete(m: Mounted, id: nat) returns (st: Status)
    requires m.Valid() && DB < |m.nodes| && m.nodes[DB].fileSize + INODE_SIZE < U32
    modifies m.cache, m.cache.raw, m.cache.raw.device, m.cache.lru, m.cache.hash, m.bitmap`hint, m.bitmap.buffer
    modifies m.nodes[DB], m.nodes[DB].ranges
    ensures m.Valid() && m.OthersKept(DB)
    ensures st == ErrNotPermitted <==> id == INODE_DB_ID || id == ROOT_DIR_ID
    ensures st == ErrNotPermitted ==>
              && Text(m, DB) == old(Text(m, DB)) && m.nodes[DB].Value() == old(m.nodes[DB].Value())
              && m.nodes[DB].dirty == old(m.nodes[DB].dirty)
    ensures id < Count(old(Text(m, DB))) ==> st == Ok && Emptied(old(Text(m, DB)), Text(m, DB), id)
    ensures id == Count(old(Text(m, DB))) - 1 ==>
              && m.nodes[DB].dirty == old(m.nodes[DB].dirty) && Text(m, DB) == old(Text(m, DB))[..INODE_SIZE * id]
              && m.nodes[DB].Value() == old(m.nodes[DB].Value()).(fileSize := INODE_SIZE * id)
                  != old(m.nodes[DB].Value())
    ensures id < Count(old(Text(m, DB))) - 1 ==> m.nodes[DB].dirty && m.nodes[DB].Value() == old(m.nodes[DB].Value())
    ensures id >= Count(old(Text(m, DB))) ==> Kept(old(Text(m, DB)), Text(m, DB))
    ensures id >= Count(old(Text(m, DB))) && st != ErrNotPermitted ==>
              var end := Mounted.Least(INODE_SIZE * id, |old(Text(m, DB))|) + INODE_SIZE;
              && m.nodes[DB].dirty == (old(m.nodes[DB].dirty) || !old(Blocked(m, DB, end)))
              && (INODE_SIZE <= m.volume.blockSize ==> st == old(StatusUpTo(m, DB, end)))
    ensures if st == ErrNotPermitted then m.Now() == old(m.Now()) else Taking(old(m.Now()), m.Now(), DB, st, m.volume)
  {
    hide Mounted.Valid, Content, InodeOf, RecordIn, Mounted.OthersKept, Took;
    TextSize(m, DB);
    if id == INODE_DB_ID || id == ROOT_DIR_ID {
      m.KeepsOthers(DB);
      return ErrNotPermitted;
    }
    var recs := m.nodes[DB].fileSize / INODE_SIZE;
    if id == recs - 1 {
      RecordCut(Text(m, DB), id);
      ShrinkFile(m, DB, (recs - 1) * INODE_SIZE);
      return Ok;
    }
    st := BlankRecord(m, id);
  }

  /** Deleting the record that was just added brings the bytes of the file back, if it had whole records only. */
  method AppendThenDelete(m: Mounted, n: Inode) returns (st: Status)
    requires m.Valid() && DB < |m.nodes| && Storable(n) && m.nodes[DB].fileSize + 2 * INODE_SIZE < U32
    requires m.nodes[DB].fileSize % INODE_SIZE == 0
    modifies m.cache, m.cache.raw, m.cache.raw.device, m.cache.lru, m.cache.hash, m.bitmap`hint, m.bitmap.buffer
    modifies m.nodes[DB], m.nodes[DB].ranges
    ensures m.Valid() && (st == Ok ==> Text(m, DB) == old(Text(m, DB)))
    ensures forall q: nat :: RecordIn(Text(m, DB), q) == RecordIn(old(Text(m, DB)), q)
  {
    hide Mounted.Valid, Content, RecordIn, Storable, Taking, Took, Mounted.Now;
    TextSize(m, DB);
    var id;
    st, id := InodeDbAppend(m, n);
    if st != Ok {
      return;
    }
    TextSize(m, DB);
    st := InodeDbDelete(m, id);
  }
}
