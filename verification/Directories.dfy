/** The operations on the entries of a directory, which is a file of a mounted volume. */
module Directories {
  import opened Common
  import opened BlockCaches
  import opened Bitmaps
  import opened FileLayout
  import opened FileBytes
  import opened FileSteps
  import opened Files
  import opened DirEntries

  /** The bytes of file i. */
  ghost function Text(m: Mounted, i: nat): (c: Block)
    requires i < |m.nodes|
    reads m.cache, m.nodes[i], m.nodes[i].ranges
  {
    Content(m.cache.view, m.nodes[i].Value())
  }

  /** The bytes of a file number its size. */
  lemma TextSize(m: Mounted, i: nat)
    requires m.Valid() && i < |m.nodes|
    ensures |Text(m, i)| == m.nodes[i].fileSize
  {
    hide BlockBitmap.Used, Owns, BlockCache.Healthy, Content;
    m.NowIs(i);
  }

  twostate lemma TextWrote(m: Mounted, new i: nat, new pos: nat, new piece: Block)
    requires i < |m.nodes| && m.bitmap.Fits() && Wrote(old(m.Now()), m.Now(), i, pos, piece)
    ensures pos <= |old(Text(m, i))| && Text(m, i) == Overwrite(old(Text(m, i)), pos, piece) && m.OthersKept(i)
  {
    hide Content, Owned, Overwrite, BlockBitmap.Used;
  }

  /** Where a record starts. */
  function RecordPos(size: nat, recNo: nat): (pos: nat) {
    size * recNo
  }

  /** What reading a record of some size at some position answers. */
  ghost predicate RecordRead(c: Block, pos: nat, size: nat, st: Status, rec: Block) {
    && st == (if pos >= |c| then ErrEndOfFile else if pos + size <= |c| then Ok else ErrCorruption)
    && (st == Ok ==> rec == c[pos..pos + size])
  }

  /** A write up to byte end of file i runs past its blocks, and no block can be added. */
  ghost predicate Blocked(m: Mounted, i: nat, end: nat)
    reads m.cache, m.bitmap.buffer, m.nodes, set n | n in m.nodes :: n.ranges
  {
    m.bitmap.Fits() && Stuck(m.Now(), i, end, m.volume)
  }

  /** What a write up to byte end of file i answers when it needs one more block at most. */
  ghost function StatusUpTo(m: Mounted, i: nat, end: nat): (st: Status)
    reads m.cache, m.bitmap.buffer, m.nodes, set n | n in m.nodes :: n.ranges
  {
    if Blocked(m, i, end) then ExpandStatus(m.Now().view, m.Now().files[i], m.Now().used, m.volume) else Ok
  }

  /** How a write ends that lies inside the file, or needs one block more at most. */
  lemma RecordEnds(a: Snapshot, b: Snapshot, at: Snapshot, i: nat, p: nat, rec: Block, st: Status, written: nat,
                   v: Volume)
    requires Ended(a, b, at, i, p, rec, st, written, v)
    requires a.files[i].fileSize <= Capacity(a.files[i], v) && p <= a.files[i].fileSize
    ensures written <= |rec| && (st == Ok <==> written == |rec|) && Wrote(a, b, i, p, rec[..written])
    ensures st != Ok ==> a.files[i].fileSize < p + |rec|
    ensures p + |rec| <= a.files[i].fileSize ==> b.files[i] == a.files[i] && b.used == a.used
    ensures |rec| <= v.blockSize ==>
              st == if Stuck(a, i, p + |rec|, v) then ExpandStatus(a.view, a.files[i], a.used, v) else Ok
  {
    hide Wrote, StoppedAt, Covers, Capacity, ExpandStatus;
  }

  /** Reads record recNo of file i. */
  method InodeReadFileRec(m: Mounted, i: nat, recSize: nat, recNo: nat) returns (st: Status, rec: Block)
    requires m.Valid() && i < |m.nodes|
    modifies m.cache, m.cache.raw, m.cache.raw.device, m.cache.lru, m.cache.hash
    ensures m.Valid() && m.cache.view == old(m.cache.view)
    ensures RecordRead(Text(m, i), RecordPos(recSize, recNo), recSize, st, rec)
  {
    hide Mounted.Valid, BlockBitmap.Used, Content;
    TextSize(m, i);
    var pos := RecordPos(recSize, recNo);
    st, rec := m.InodeReadFileBytes(i, pos, recSize);
    if st == Ok && |rec| != recSize {
      st := ErrCorruption;
    }
  }

  /**
   * A record was written at byte pos of file i, as far as it went: inside the file this cannot fail, and with one
   * block more at most it fails exactly when that cannot be had.
   */
  twostate predicate Recorded(m: Mounted, i: nat, pos: nat, rec: Block, st: Status, written: nat, at: Snapshot)
    reads m.cache, m.bitmap.buffer, m.nodes, set n | n in m.nodes :: n.ranges
  {
    && i < |m.nodes| && m.bitmap.Fits()
    && Ended(old(m.Now()), m.Now(), at, i, pos, rec, st, written, m.volume)
    && Taking(old(m.Now()), m.Now(), i, st, m.volume)
    && written <= |rec| && (st == Ok <==> written == |rec|)
    && (st == Ok || st == DoubleIndirectNeeded || st == ErrResourcesExhausted)
    && pos <= |old(Text(m, i))| && Text(m, i) == Overwrite(old(Text(m, i)), pos, rec[..written])
    && (st != Ok ==> pos + |rec| > |old(Text(m, i))|)
    && (pos + |rec| <= |old(Text(m, i))| ==>
          m.nodes[i].Value() == old(m.nodes[i].Value()) && m.Now().used == old(m.Now()).used)
    && m.nodes[i].dirty == (old(m.nodes[i].dirty) || (rec != [] && !old(Blocked(m, i, pos + |rec|))))
    && (|rec| <= m.volume.blockSize ==> st == old(StatusUpTo(m, i, pos + |rec|)))
  }

  twostate lemma RecordedNow(m: Mounted, new i: nat, new pos: nat, new rec: Block, new st: Status, new written: nat,
                             new at: Snapshot)
    requires i < |m.nodes| && m.bitmap.Fits() && pos <= old(m.nodes[i].fileSize) == |old(Text(m, i))|
    requires old(m.nodes[i].fileSize) <= Capacity(old(m.nodes[i].Value()), m.volume)
    requires Ended(old(m.Now()), m.Now(), at, i, pos, rec, st, written, m.volume)
    requires st == Ok || st == DoubleIndirectNeeded || st == ErrResourcesExhausted
    requires m.nodes[i].dirty ==
               (old(m.nodes[i].dirty) || (rec != [] && !Stuck(old(m.Now()), i, pos + |rec|, m.volume)))
    ensures Recorded(m, i, pos, rec, st, written, at) && m.OthersKept(i)
  {
    hide BlockBitmap.Used, Wrote, Overwrite, Content, ExpandStatus, Capacity, Ended, Stuck, Taking;
    EndedTaking(old(m.Now()), m.Now(), at, i, pos, rec, st, written, m.volume);
    RecordEnds(old(m.Now()), m.Now(), at, i, pos, rec, st, written, m.volume);
    TextWrote(m, i, pos, rec[..written]);
  }

  /** Writes record recNo of file i, or at the end of the file if that comes first. */
  method InodeWriteFileRec(m: Mounted, i: nat, recNo: nat, rec: Block)
    returns (st: Status, ghost written: nat, ghost at: Snapshot)
    requires m.Valid() && i < |m.nodes| && Mounted.Least(RecordPos(|rec|, recNo), m.nodes[i].fileSize) + |rec| < U32
    modifies m.cache, m.cache.raw, m.cache.raw.device, m.cache.lru, m.cache.hash, m.bitmap`hint, m.bitmap.buffer
    modifies m.nodes[i], m.nodes[i].ranges
    ensures m.Valid() && m.OthersKept(i)
    ensures Recorded(m, i, Mounted.Least(RecordPos(|rec|, recNo), |old(Text(m, i))|), rec, st, written, at)
  {
    hide Mounted.Valid, Mounted.Now, BlockBitmap.Used, Content, Capacity, Ended, Stuck, Recorded, Mounted.OthersKept;
    TextSize(m, i);
    m.FitsInBlocks(i);
    m.Parts();
    var count;
    st, count, at := m.InodeWriteFileBytes(i, RecordPos(|rec|, recNo), rec);
    written := count;
    m.Parts();
    RecordedNow(m, i, Mounted.Least(RecordPos(|rec|, recNo), old(m.nodes[i].fileSize)), rec, st, written, at);
  }

  lemma Shrunk(view: seq<Block>, files: seq<Inode>, i: nat, n': Inode, used: set<nat>, v: Volume)
    requires Owns(view, files, used, v) && i < |files|
    requires n' == files[i].(fileSize := n'.fileSize) && n'.fileSize <= files[i].fileSize
    ensures Owns(view, files[i := n'], used, v) && FileBlocks(view, n') == FileBlocks(view, files[i])
  {
    hide FileBlocks, Owned, OwnedSet, Content, Reserved, Span;
    assert Sound(view, files[i], v);
    SameLayout(view, view, files[i], n', v);
    OwnershipKept(view, view, files, i, n', used, used, v);
  }

  /** Makes file i shorter, without giving blocks back and without marking the inode dirty. */
  method ShrinkFile(m: Mounted, i: nat, size: nat)
    requires m.Valid() && i < |m.nodes| && size <= m.nodes[i].fileSize == |Text(m, i)|
    modifies m.nodes[i]
    ensures m.Valid() && m.OthersKept(i) && m.nodes[i].dirty == old(m.nodes[i].dirty)
    ensures Text(m, i) == old(Text(m, i))[..size] && m.nodes[i].Value() == old(m.nodes[i].Value()).(fileSize := size)
    ensures Took(old(m.Now()), m.Now(), i) && m.Now().used == old(m.Now()).used
  {
    hide BlockCache.Healthy, BlockBitmap.Used, Owns, Content, FileBlocks, Owned, OwnedSet, Took;
    ghost var n := m.nodes[i].Value();
    m.Sizes();
    ContentSize(m.cache.view, m.Files(), i, m.bitmap.Used(), m.volume);
    m.nodes[i].fileSize := size;
    m.OneChanged(i);
    Shrunk(m.cache.view, old(m.Files()), i, m.nodes[i].Value(), m.bitmap.Used(), m.volume);
    m.KeepsOthers(i);
    ContentSize(m.cache.view, m.Files(), i, m.bitmap.Used(), m.volume);
    TookSize(old(m.Now()), m.Now(), i);
  }

  /** The entries of directory i. */
  ghost function Listing(m: Mounted, i: nat): (es: seq<Entry>)
    requires i < |m.nodes|
    reads m.cache, m.nodes[i], m.nodes[i].ranges
  {
    Entries(Text(m, i))
  }

  /** What a search answers: the first entry with the name. */
  ghost predicate Found(es: seq<Entry>, name: Block, st: Status, id: nat, recNo: nat) {
    if Absent(es, name) then st == ErrNotFound
    else st == Ok && recNo < |es| && es[recNo] == Entry(name, id) && Absent(es[..recNo], name)
  }

  /** Reads entry recNo. */
  method DirLoadEntry(m: Mounted, i: nat, recNo: nat) returns (st: Status, e: Entry)
    requires m.Valid() && i < |m.nodes| && recNo < |Listing(m, i)|
    modifies m.cache, m.cache.raw, m.cache.raw.device, m.cache.lru, m.cache.hash
    ensures m.Valid() && m.cache.view == old(m.cache.view)
    ensures st == Ok && e == Listing(m, i)[recNo]
  {
    hide Mounted.Valid, BlockBitmap.Used, Content, EntryOf;
    var rec;
    e := Entry([], 0);
    st, rec := InodeReadFileRec(m, i, ENTRY_SIZE, recNo);
    if st != Ok {
      return;
    }
    assert rec == Record(Text(m, i), recNo);
    e := EntryOf(rec);
  }

  /** Searches a directory for a name. */
  method DirFindEntryByName(m: Mounted, i: nat, name: Block) returns (st: Status, id: nat, recNo: nat)
    requires m.Valid() && i < |m.nodes|
    modifies m.cache, m.cache.raw, m.cache.raw.device, m.cache.lru, m.cache.hash
    ensures m.Valid() && m.cache.view == old(m.cache.view)
    ensures Found(Listing(m, i), name, st, id, recNo)
  {
    hide Mounted.Valid, BlockBitmap.Used, Content, Entries;
    TextSize(m, i);
    var recs := m.nodes[i].fileSize / ENTRY_SIZE;
    ghost var es := Listing(m, i);
    id, recNo := 0, 0;
    for k := 0 to recs
      invariant m.Valid() && m.cache.view == old(m.cache.view)
      invariant Absent(es[..k], name)
    {
      var e;
      st, e := DirLoadEntry(m, i, k);
      if st == ErrEndOfFile {
        break;
      }
      if st != Ok {
        return;
      }
      if e.name == name {
        return Ok, e.id, k;
      }
    }
    assert es[..recs] == es;
    return ErrNotFound, 0, 0;
  }

  /** Checks that no entry has a name. */
  method DirEnsureEntryIsMissing(m: Mounted, i: nat, name: Block) returns (st: Status)
    requires m.Valid() && i < |m.nodes|
    modifies m.cache, m.cache.raw, m.cache.raw.device, m.cache.lru, m.cache.hash
    ensures m.Valid() && m.cache.view == old(m.cache.view)
    ensures st == if Absent(Listing(m, i), name) then Ok else ErrAlreadyExists
  {
    hide Mounted.Valid, BlockBitmap.Used, Content, Entries;
    TextSize(m, i);
    var recs := m.nodes[i].fileSize / ENTRY_SIZE;
    ghost var es := Listing(m, i);
    for k := 0 to recs
      invariant m.Valid() && m.cache.view == old(m.cache.view)
      invariant Absent(es[..k], name)
    {
      var e;
      st, e := DirLoadEntry(m, i, k);
      if st == ErrEndOfFile {
        break;
      }
      if st != Ok {
        return;
      }
      if e.name == name {
        return ErrAlreadyExists;
      }
    }
    assert es[..recs] == es;
    return Ok;
  }

  /** Inside a file no write is blocked. */
  lemma NotBlocked(m: Mounted, i: nat, end: nat)
    requires m.Valid() && i < |m.nodes| && end <= m.nodes[i].fileSize
    ensures !Blocked(m, i, end)
  {
    hide BlockBitmap.Used, Owns, BlockCache.Healthy, ExpandStatus;
    WithinCapacity(m.cache.view, m.Files(), i, m.bitmap.Used(), m.volume);
  }

  /** Replaces entry recNo. */
  method DirUpdateEntry(m: Mounted, i: nat, recNo: nat, name: Block, id: nat) returns (st: Status)
    requires m.Valid() && i < |m.nodes| && recNo < |Listing(m, i)| && m.nodes[i].fileSize < U32
    requires 0 !in name && id < U32
    modifies m.cache, m.cache.raw, m.cache.raw.device, m.cache.lru, m.cache.hash, m.bitmap`hint, m.bitmap.buffer
    modifies m.nodes[i], m.nodes[i].ranges
    ensures m.Valid() && m.OthersKept(i) && st == Ok && m.nodes[i].dirty
    ensures Listing(m, i) == old(Listing(m, i))[recNo := Entry(Trimmed(name), id)]
    ensures Took(old(m.Now()), m.Now(), i) && m.Now().used == old(m.Now()).used
  {
    hide Mounted.Valid, BlockBitmap.Used, Content, EntryOf, EntryBytes, Overwrite, Mounted.OthersKept, Blocked, Took;
    hide Ended, StatusUpTo;
    TextSize(m, i);
    NotBlocked(m, i, ENTRY_SIZE * recNo + ENTRY_SIZE);
    var rec := EntryBytes(name, id);
    EntryRoundTrip(name, id);
    ghost var written, at;
    st, written, at := InodeWriteFileRec(m, i, recNo, rec);
    assert rec[..written] == rec;
    EntryReplaced(old(Text(m, i)), recNo, rec);
  }

  /** Where an entry that is added to directory i ends. */
  ghost function EntryEnd(m: Mounted, i: nat): (end: nat)
    requires i < |m.nodes|
    reads m.nodes[i]
  {
    m.nodes[i].fileSize / ENTRY_SIZE * ENTRY_SIZE + ENTRY_SIZE
  }

  /** What adding an entry to directory i answers: it fails exactly when a block is needed and cannot be had. */
  ghost function EntryStatus(m: Mounted, i: nat): (st: Status)
    requires i < |m.nodes|
    reads m.cache, m.bitmap.buffer, m.nodes, set n | n in m.nodes :: n.ranges
  {
    StatusUpTo(m, i, EntryEnd(m, i))
  }

  /** Adds an entry. When no block is left for it, the directory keeps its entries. */
  method DirAppendEntry(m: Mounted, i: nat, name: Block, id: nat) returns (st: Status)
    requires m.Valid() && i < |m.nodes| && m.nodes[i].fileSize + ENTRY_SIZE < U32
    requires 0 !in name && id < U32
    modifies m.cache, m.cache.raw, m.cache.raw.device, m.cache.lru, m.cache.hash, m.bitmap`hint, m.bitmap.buffer
    modifies m.nodes[i], m.nodes[i].ranges
    ensures m.Valid() && m.OthersKept(i) && (st == Ok || st == DoubleIndirectNeeded || st == ErrResourcesExhausted)
    ensures Listing(m, i) == if st == Ok then old(Listing(m, i)) + [Entry(Trimmed(name), id)] else old(Listing(m, i))
    ensures m.nodes[i].dirty == (old(m.nodes[i].dirty) || !old(Blocked(m, i, EntryEnd(m, i))))
    ensures ENTRY_SIZE <= m.volume.blockSize ==> st == old(EntryStatus(m, i))
    ensures Taking(old(m.Now()), m.Now(), i, st, m.volume)
  {
    hide Mounted.Valid, BlockBitmap.Used, Content, EntryOf, EntryBytes, Overwrite, Mounted.OthersKept, Blocked, Taking;
    hide Ended, StatusUpTo;
    TextSize(m, i);
    var rec := EntryBytes(name, id);
    EntryRoundTrip(name, id);
    var recNo := m.nodes[i].fileSize / ENTRY_SIZE;
    ghost var written, at;
    st, written, at := InodeWriteFileRec(m, i, recNo, rec);
    if st == Ok {
      assert rec[..written] == rec;
      EntryAppended(old(Text(m, i)), rec);
    } else {
      EntryCutShort(old(Text(m, i)), rec[..written]);
    }
  }

  /** Removes an entry: the last one is cut off, any other is blanked. */
  method DirDeleteEntry(m: Mounted, i: nat, recNo: nat) returns (st: Status)
    requires m.Valid() && i < |m.nodes| && recNo < |Listing(m, i)| && m.nodes[i].fileSize < U32
    modifies m.cache, m.cache.raw, m.cache.raw.device, m.cache.lru, m.cache.hash, m.bitmap`hint, m.bitmap.buffer
    modifies m.nodes[i], m.nodes[i].ranges
    ensures m.Valid() && m.OthersKept(i) && st == Ok
    ensures var es := old(Listing(m, i));
            Listing(m, i) == if recNo == |es| - 1 then es[..recNo] else es[recNo := Entry([], 0)]
    ensures if recNo == |old(Listing(m, i))| - 1 then
              && m.nodes[i].dirty == old(m.nodes[i].dirty)
              && m.nodes[i].Value() == old(m.nodes[i].Value()).(fileSize := ENTRY_SIZE * recNo)
                  != old(m.nodes[i].Value())
            else
              m.nodes[i].dirty
    ensures Took(old(m.Now()), m.Now(), i) && m.Now().used == old(m.Now()).used
  {
    hide Mounted.Valid, BlockBitmap.Used, Content, EntryOf, Mounted.OthersKept, Took;
    TextSize(m, i);
    var recs := m.nodes[i].fileSize / ENTRY_SIZE;
    if recNo == recs - 1 {
      ShrinkFile(m, i, (recs - 1) * ENTRY_SIZE);
      EntriesCut(old(Text(m, i)), recs - 1);
      return Ok;
    }
    st := DirUpdateEntry(m, i, recNo, [], 0);
  }

  /** The map directory i stands for. */
  ghost function Map(m: Mounted, i: nat): (names: map<Block, nat>)
    requires i < |m.nodes|
    reads m.cache, m.nodes[i], m.nodes[i].ranges
  {
    Names(Listing(m, i))
  }

  /** A directory whose entries have different names, and room for one more. */
  ghost predicate Ready(m: Mounted, i: nat)
    reads m.cache, m.nodes, set n | n in m.nodes :: n.ranges
  {
    i < |m.nodes| && Unique(Listing(m, i)) && m.nodes[i].fileSize + ENTRY_SIZE < U32
  }

  /** A name: not empty, no zero byte. */
  ghost predicate Proper(name: Block) {
    name != [] && 0 !in name
  }

  /** What is kept of a name is not the name of an entry already. */
  ghost predicate NoClash(names: map<Block, nat>, name: Block) {
    |name| < NAME_SIZE || Trimmed(name) !in names
  }

  lemma OtherText(view: seq<Block>, files: seq<Inode>, view': seq<Block>, files': seq<Inode>, i: nat)
    requires SameOthers(view, files, view', files', i)
    ensures |files| == |files'|
    ensures forall j :: 0 <= j < |files| && j != i ==>
              files'[j] == files[j] && Content(view', files'[j]) == Content(view, files[j])
  {
    hide Content, Owned;
  }

  /** The other files are as before. */
  twostate predicate OthersSame(m: Mounted, i: nat)
    reads m.cache, m.nodes, set n | n in m.nodes :: n.ranges
  {
    forall j :: 0 <= j < |m.nodes| && j != i ==>
      m.nodes[j].fileSize == old(m.nodes[j].fileSize) && Text(m, j) == old(Text(m, j))
  }

  /** Adds an entry, as the map sees it. */
  method AddName(m: Mounted, i: nat, name: Block, id: nat) returns (st: Status)
    requires m.Valid() && Ready(m, i) && Proper(name) && Absent(Listing(m, i), name) && id < U32
    modifies m.cache, m.cache.raw, m.cache.raw.device, m.cache.lru, m.cache.hash, m.bitmap`hint, m.bitmap.buffer
    modifies m.nodes[i], m.nodes[i].ranges
    ensures m.Valid() && m.OthersKept(i) && (st == Ok || st == DoubleIndirectNeeded || st == ErrResourcesExhausted)
    ensures Map(m, i) == if st == Ok then old(Map(m, i))[Trimmed(name) := id] else old(Map(m, i))
    ensures Listing(m, i) == if st == Ok then old(Listing(m, i)) + [Entry(Trimmed(name), id)] else old(Listing(m, i))
    ensures Unique(Listing(m, i)) <==> st != Ok || NoClash(old(Map(m, i)), name)
    ensures ENTRY_SIZE <= m.volume.blockSize ==> st == old(EntryStatus(m, i))
    ensures OthersSame(m, i)
    ensures Taking(old(m.Now()), m.Now(), i, st, m.volume)
  {
    hide Mounted.Valid, Entries, Unique, Absent, Names, SameOthers, Content, EntryStatus, Taking;
    ghost var view, files := m.cache.view, m.Files();
    st := DirAppendEntry(m, i, name, id);
    NamesLookup(old(Listing(m, i)), Trimmed(name));
    UniqueAppend(old(Listing(m, i)), Entry(Trimmed(name), id));
    OtherText(view, files, m.cache.view, m.Files(), i);
  }

  /** Enters a new name: the directory part of creating a file. */
  method Enter(m: Mounted, i: nat, name: Block, id: nat) returns (st: Status)
    requires m.Valid() && Ready(m, i) && Proper(name) && id < U32
    modifies m.cache, m.cache.raw, m.cache.raw.device, m.cache.lru, m.cache.hash, m.bitmap`hint, m.bitmap.buffer
    modifies m.nodes[i], m.nodes[i].ranges
    ensures m.Valid() && m.OthersKept(i)
    ensures st == ErrAlreadyExists <==> name in old(Map(m, i))
    ensures Map(m, i) == if st == Ok then old(Map(m, i))[Trimmed(name) := id] else old(Map(m, i))
    ensures Listing(m, i) == if st == Ok then old(Listing(m, i)) + [Entry(Trimmed(name), id)] else old(Listing(m, i))
    ensures Unique(Listing(m, i)) <==> st != Ok || NoClash(old(Map(m, i)), name)
    ensures ENTRY_SIZE <= m.volume.blockSize && name !in old(Map(m, i)) ==> st == old(EntryStatus(m, i))
    ensures if st == ErrAlreadyExists then m.Now() == old(m.Now()) else Taking(old(m.Now()), m.Now(), i, st, m.volume)
  {
    hide Mounted.Valid, Entries, Unique, Absent, Names, SameOthers, Content, ExpandStatus, Stuck, Taking;
    SameOthersSelf(m.cache.view, m.Files(), i);
    NamesLookup(Listing(m, i), name);
    st := DirEnsureEntryIsMissing(m, i, name);
    if st != Ok {
      return;
    }
    st := AddName(m, i, name, id);
  }

  /** An entry is cut off at the end of the list, or blanked. */
  ghost predicate EntryGone(es: seq<Entry>, es': seq<Entry>, e: Entry) {
    exists k :: 0 <= k < |es| && es[k] == e && es' == if k == |es| - 1 then es[..k] else es[k := Entry([], 0)]
  }

  /** The entry of a name is replaced in its place. */
  ghost predicate EntryChanged(es: seq<Entry>, es': seq<Entry>, name: Block, e: Entry) {
    exists k :: 0 <= k < |es| && es[k].name == name && es' == es[k := e]
  }

  lemma NamesDelete(es: seq<Entry>, k: nat)
    requires Unique(es) && k < |es|
    ensures var es' := if k == |es| - 1 then es[..k] else es[k := Entry([], 0)];
            Unique(es') && Names(es') == Names(es) - {es[k].name} && EntryGone(es, es', es[k])
  {
    hide Unique, Absent, Names;
    if k == |es| - 1 {
      NamesCut(es);
    } else {
      NamesReplace(es, k, Entry([], 0));
    }
  }

  /** Removes entry recNo, as the map sees it. */
  method RemoveAt(m: Mounted, i: nat, recNo: nat) returns (st: Status)
    requires m.Valid() && Ready(m, i) && recNo < |Listing(m, i)|
    modifies m.cache, m.cache.raw, m.cache.raw.device, m.cache.lru, m.cache.hash, m.bitmap`hint, m.bitmap.buffer
    modifies m.nodes[i], m.nodes[i].ranges
    ensures m.Valid() && m.OthersKept(i) && st == Ok && Unique(Listing(m, i))
    ensures Map(m, i) == old(Map(m, i)) - {old(Listing(m, i))[recNo].name}
    ensures EntryGone(old(Listing(m, i)), Listing(m, i), old(Listing(m, i))[recNo])
    ensures OthersSame(m, i)
    ensures Took(old(m.Now()), m.Now(), i) && m.Now().used == old(m.Now()).used
  {
    hide Mounted.Valid, Entries, Unique, Absent, Names, SameOthers;
    hide Content, EntryGone, Took, Mounted.Now, BlockBitmap.Used;
    ghost var es, view, files := Listing(m, i), m.cache.view, m.Files();
    st := DirDeleteEntry(m, i, recNo);
    NamesDelete(es, recNo);
    OtherText(view, files, m.cache.view, m.Files(), i);
  }

  /** Removes a name: the directory part of removing a file. */
  method Remove(m: Mounted, i: nat, name: Block) returns (st: Status, id: nat)
    requires m.Valid() && Ready(m, i) && Proper(name)
    modifies m.cache, m.cache.raw, m.cache.raw.device, m.cache.lru, m.cache.hash, m.bitmap`hint, m.bitmap.buffer
    modifies m.nodes[i], m.nodes[i].ranges
    ensures m.Valid() && m.OthersKept(i) && Unique(Listing(m, i))
    ensures st == if name in old(Map(m, i)) then Ok else ErrNotFound
    ensures st == Ok ==> id == old(Map(m, i))[name]
    ensures Map(m, i) == old(Map(m, i)) - {name}
    ensures st == Ok ==> EntryGone(old(Listing(m, i)), Listing(m, i), Entry(name, id))
    ensures if st == Ok then Took(old(m.Now()), m.Now(), i) && m.Now().used == old(m.Now()).used
            else m.Now() == old(m.Now())
  {
    hide Mounted.Valid, Entries, Unique, Absent, Names, SameOthers, Content, Took;
    SameOthersSelf(m.cache.view, m.Files(), i);
    ghost var es := Listing(m, i);
    NamesLookup(es, name);
    var recNo;
    st, id, recNo := DirFindEntryByName(m, i, name);
    if st != Ok {
      return;
    }
    st := RemoveAt(m, i, recNo);
  }

  /** Renames an entry inside a directory. */
  method RenameInside(m: Mounted, i: nat, name: Block, name': Block) returns (st: Status)
    requires m.Valid() && Ready(m, i) && Proper(name) && Proper(name')
    modifies m.cache, m.cache.raw, m.cache.raw.device, m.cache.lru, m.cache.hash, m.bitmap`hint, m.bitmap.buffer
    modifies m.nodes[i], m.nodes[i].ranges
    ensures m.Valid() && m.OthersKept(i)
    ensures var names := old(Map(m, i));
            && st == (if name !in names then ErrNotFound else if name' in names then ErrAlreadyExists else Ok)
            && (st != Ok ==> Map(m, i) == names)
            && (Unique(Listing(m, i)) <==> st != Ok || |name'| < NAME_SIZE || Trimmed(name') !in names - {name})
            && (st == Ok && Unique(Listing(m, i)) ==> Map(m, i) == (names - {name})[Trimmed(name') := names[name]])
    ensures st == Ok ==>
              EntryChanged(old(Listing(m, i)), Listing(m, i), name, Entry(Trimmed(name'), old(Map(m, i))[name]))
    ensures if st == Ok then Took(old(m.Now()), m.Now(), i) && m.Now().used == old(m.Now()).used
            else m.Now() == old(m.Now())
  {
    hide Mounted.Valid, Entries, Unique, Absent, Names, SameOthers, Content, Took;
    SameOthersSelf(m.cache.view, m.Files(), i);
    ghost var es := Listing(m, i);
    NamesLookup(es, name);
    NamesLookup(es, name');
    var id, recNo;
    st, id, recNo := DirFindEntryByName(m, i, name);
    if st != Ok {
      return;
    }
    st := DirEnsureEntryIsMissing(m, i, name');
    if st != Ok {
      return;
    }
    st := DirUpdateEntry(m, i, recNo, name', id);
    NamesLookup(es, Trimmed(name'));
    NamesReplace(es, recNo, Entry(Trimmed(name'), id));
  }

  /** File j took the blocks it needed, and then file i did. */
  ghost predicate TookBoth(a: Snapshot, b: Snapshot, j: nat, i: nat) {
    exists mid :: Took(a, mid, j) && Took(mid, b, i)
  }

  lemma BothTook(a: Snapshot, mid: Snapshot, b: Snapshot, j: nat, i: nat, v: Volume)
    requires Taking(a, mid, j, Ok, v) && Took(mid, b, i)
    ensures TookBoth(a, b, j, i)
  {
    hide Took;
  }

  /** Adds an entry to directory j and, if that works, removes entry recNo of directory i. */
  method MoveEntry(m: Mounted, i: nat, recNo: nat, id: nat, j: nat, name': Block) returns (st: Status)
    requires m.Valid() && Ready(m, i) && Ready(m, j) && i != j && recNo < |Listing(m, i)| && id < U32
    requires Proper(name') && Absent(Listing(m, j), name')
    modifies m.cache, m.cache.raw, m.cache.raw.device, m.cache.lru, m.cache.hash, m.bitmap`hint, m.bitmap.buffer
    modifies m.nodes[i], m.nodes[i].ranges, m.nodes[j], m.nodes[j].ranges
    ensures m.Valid() && Unique(Listing(m, i))
    ensures Unique(Listing(m, j)) <==> st != Ok || NoClash(old(Map(m, j)), name')
    ensures st == Ok || st == DoubleIndirectNeeded || st == ErrResourcesExhausted
    ensures Map(m, i) == if st == Ok then old(Map(m, i)) - {old(Listing(m, i))[recNo].name} else old(Map(m, i))
    ensures Map(m, j) == if st == Ok then old(Map(m, j))[Trimmed(name') := id] else old(Map(m, j))
    ensures forall k :: 0 <= k < |m.nodes| && k != i && k != j ==> Text(m, k) == old(Text(m, k))
    ensures ENTRY_SIZE <= m.volume.blockSize ==> st == old(EntryStatus(m, j))
    ensures Listing(m, j) == if st == Ok then old(Listing(m, j)) + [Entry(Trimmed(name'), id)] else old(Listing(m, j))
    ensures if st == Ok then EntryGone(old(Listing(m, i)), Listing(m, i), old(Listing(m, i))[recNo])
            else Listing(m, i) == old(Listing(m, i))
    ensures if st == Ok then TookBoth(old(m.Now()), m.Now(), j, i) else Taking(old(m.Now()), m.Now(), j, st, m.volume)
  {
    hide Mounted.Valid, Mounted.OthersKept, Mounted.Now, Text, Entries, Names, Trimmed, Took, Taking, TookBoth;
    hide Unique, Absent, NoClash, EntryStatus, EntryGone;
    m.Parts();
    st := AddName(m, j, name', id);
    if st != Ok {
      return;
    }
    m.Parts();
    ghost var mid := m.Now();
    st := RemoveAt(m, i, recNo);
    m.Parts();
    BothTook(old(m.Now()), mid, m.Now(), j, i, m.volume);
  }

  /** Finds the entry of a name in directory i, if directory j has no entry of another name. */
  method FindToMove(m: Mounted, i: nat, name: Block, j: nat, name': Block) returns (st: Status, id: nat, recNo: nat)
    requires m.Valid() && Ready(m, i) && Ready(m, j) && Proper(name) && Proper(name')
    modifies m.cache, m.cache.raw, m.cache.raw.device, m.cache.lru, m.cache.hash
    ensures m.Valid() && Ready(m, i) && Ready(m, j) && EntryStatus(m, j) == old(EntryStatus(m, j))
    ensures forall k :: 0 <= k < |m.nodes| ==>
              Text(m, k) == old(Text(m, k)) && Listing(m, k) == old(Listing(m, k)) && Map(m, k) == old(Map(m, k))
    ensures st == if name !in Map(m, i) then ErrNotFound else if name' in Map(m, j) then ErrAlreadyExists else Ok
    ensures st == Ok ==>
              && recNo < |Listing(m, i)| && Listing(m, i)[recNo] == Entry(name, id) && id == Map(m, i)[name]
              && id < U32 && Absent(Listing(m, j), name')
    ensures m.Now() == old(m.Now())
  {
    hide Mounted.Valid, Entries, Unique, Absent, Names, SameOthers, Content, ExpandStatus, Stuck, BlockBitmap.Used;
    NamesLookup(Listing(m, i), name);
    NamesLookup(Listing(m, j), name');
    st, id, recNo := DirFindEntryByName(m, i, name);
    if st != Ok {
      return;
    }
    st := DirEnsureEntryIsMissing(m, j, name');
  }

  /** Moves an entry to another directory: it is in one of the two at the end, never in both or in none. */
  method RenameAcross(m: Mounted, i: nat, name: Block, j: nat, name': Block) returns (st: Status)
    requires m.Valid() && Ready(m, i) && Ready(m, j) && i != j && Proper(name) && Proper(name')
    modifies m.cache, m.cache.raw, m.cache.raw.device, m.cache.lru, m.cache.hash, m.bitmap`hint, m.bitmap.buffer
    modifies m.nodes[i], m.nodes[i].ranges, m.nodes[j], m.nodes[j].ranges
    ensures m.Valid() && Unique(Listing(m, i))
    ensures Unique(Listing(m, j)) <==> st != Ok || NoClash(old(Map(m, j)), name')
    ensures var from, to := old(Map(m, i)), old(Map(m, j));
            && (st == ErrNotFound <==> name !in from)
            && (name in from ==> (st == ErrAlreadyExists <==> name' in to))
            && Map(m, i) == (if st == Ok then from - {name} else from)
            && Map(m, j) == if st == Ok then to[Trimmed(name') := from[name]] else to
    ensures forall k :: 0 <= k < |m.nodes| && k != i && k != j ==> Text(m, k) == old(Text(m, k))
    ensures ENTRY_SIZE <= m.volume.blockSize && name in old(Map(m, i)) && name' !in old(Map(m, j)) ==>
              st == old(EntryStatus(m, j))
    ensures st == Ok ==> Listing(m, j) == old(Listing(m, j)) + [Entry(Trimmed(name'), old(Map(m, i))[name])]
    ensures st == Ok ==> EntryGone(old(Listing(m, i)), Listing(m, i), Entry(name, old(Map(m, i))[name]))
    ensures if st == Ok then TookBoth(old(m.Now()), m.Now(), j, i)
            else if st == ErrNotFound || st == ErrAlreadyExists then m.Now() == old(m.Now())
            else Taking(old(m.Now()), m.Now(), j, st, m.volume)
  {
    hide Mounted.Valid, Text, Listing, Map, Unique, Absent, NoClash, EntryStatus, EntryGone, Trimmed, TookBoth, Taking;
    var id, recNo;
    st, id, recNo := FindToMove(m, i, name, j, name');
    if st != Ok {
      return;
    }
    st := MoveEntry(m, i, recNo, id, j, name');
  }
}
