/** Whole runs of file operations on a mounted volume. */
module FileRuns {
  import opened Common
  import opened FileLayout
  import opened FileBytes
  import opened FileSteps
  import opened Files
  import opened Ranges
  import opened Bitmaps

  lemma LeakedIs(n: Inode, used: set<nat>, v: Volume)
    ensures Leaked(n, used, v) !! used && (Leaked(n, used, v) == {} <==> !Leaks(n, used, v))
  {
  }

  lemma BlankOwnsNothing(view: seq<Block>, n: Inode)
    requires Blank(n)
    ensures OwnedSet(view, n) == {} && n.blockCount == 0
  {
  }

  /**
   * Any number of expansions of an empty file, then truncation: the used blocks are as before unless
   * the expansion that failed, at the moment at, needed an indirect block besides the one free block.
   */
  method ExpandThenTruncate(m: Mounted, i: nat, count: nat) returns (st: Status, expanded: nat, ghost at: Snapshot)
    requires m.Valid() && i < |m.nodes| && Blank(m.nodes[i].Value())
    modifies m.cache, m.cache.raw, m.cache.raw.device, m.cache.lru, m.cache.hash, m.bitmap`hint, m.bitmap.buffer
    modifies m.nodes[i], m.nodes[i].ranges
    ensures m.Valid() && m.OthersKept(i) && Blank(m.nodes[i].Value())
    ensures st == Ok ==> expanded == count && m.bitmap.Used() == old(m.bitmap.Used())
    ensures st != Ok ==> expanded < count && i < |at.files| && at.files[i].blockCount == expanded
    ensures st != Ok ==> st == ExpandStatus(at.view, at.files[i], at.used, m.volume)
    ensures st != Ok ==> at.used == old(m.bitmap.Used()) + OwnedSet(at.view, at.files[i])
    ensures st != Ok ==> m.bitmap.Used() == old(m.bitmap.Used()) + Leaked(at.files[i], at.used, m.volume)
    ensures st != Ok ==> (m.bitmap.Used() == old(m.bitmap.Used()) <==> !Leaks(at.files[i], at.used, m.volume))
  {
    hide Mounted.Valid, BlockBitmap.Used, Owned, OwnedSet, Content, FileBlocks, SameOthers, Blank;
    hide ExpandStatus, Leaked, Leaks;
    m.Parts();
    ghost var start := m.Now();
    at := start;
    BlankOwnsNothing(start.view, m.nodes[i].Value());
    SameOthersSelf(start.view, start.files, i);
    expanded := 0;
    st := Ok;
    while expanded < count
      invariant m.Valid() && expanded <= count && st == Ok && m.nodes[i].blockCount == expanded
      invariant SameOthers(start.view, start.files, m.cache.view, m.Files(), i)
      invariant var own := OwnedSet(m.cache.view, m.nodes[i].Value());
                own !! start.used && m.bitmap.Used() == start.used + own
    {
      at := m.Now();
      var newBlock;
      st, newBlock := m.InodeExpandBlocks(i);
      SameOthersTwice(start.view, start.files, at.view, at.files, m.cache.view, m.Files(), i);
      if st != Ok {
        LeakedIs(at.files[i], at.used, m.volume);
        break;
      }
      expanded := expanded + 1;
    }
    ghost var before := m.Now();
    var err := m.InodeTruncateFileBytes(i);
    SameOthersTwice(start.view, start.files, before.view, before.files, m.cache.view, m.Files(), i);
  }

  /** An empty inode that has gained k blocks from first on, in one range. */
  ghost function OneRange(n: Inode, first: nat, k: nat): (n': Inode)
    requires n.ranges != []
  {
    if k == 0 then n else n.(blockCount := k, ranges := n.ranges[0 := Range(first, k)])
  }

  lemma OneRangeDepth(n: Inode, first: nat, k: nat)
    requires Blank(n) && 0 < first
    ensures Depth(OneRange(n, first, k).ranges) == if k == 0 then 0 else 1
  {
    FlatNone(n.ranges);
    DepthIs(OneRange(n, first, k).ranges, if k == 0 then 0 else 1);
  }

  /** A stretch of free blocks, the first one from the hint on. */
  ghost predicate FreeRun(used: set<nat>, blocks: nat, hint: nat, first: nat, count: nat) {
    && FirstFree(used, blocks, hint, first) && first + count <= blocks && count <= MAX_COUNT
    && Span(first, count) !! used && 0 in used
  }

  lemma OneRangeExpands(view: seq<Block>, n: Inode, used: set<nat>, hint: nat, first: nat, k: nat, count: nat,
                        v: Volume)
    requires Blank(n) && FreeRun(used, v.blocks, hint, first, count) && k < count
    ensures ExpandStatus(view, OneRange(n, first, k), used + Span(first, k), v) == Ok
  {
    hide Depth;
    OneRangeDepth(n, first, k);
    assert first + k !in used + Span(first, k);
  }

  /** The next block of the stretch is the next one of the range. */
  lemma OneRangeGrows(view: seq<Block>, n: Inode, used: set<nat>, hint: nat, first: nat, k: nat, count: nat,
                      view': seq<Block>, n': Inode, b: nat, hint': nat, v: Volume)
    requires Blank(n) && FreeRun(used, v.blocks, hint, first, count) && k < count
    requires n.ranges != [] && Grew(view, OneRange(n, first, k), used + Span(first, k),
                  if k == 0 then hint else Next(first, v.blocks), view', n', b, hint', v)
    ensures b == first + k && n' == OneRange(n, first, k + 1) && hint' == Next(first, v.blocks)
    ensures n'.indirect == OneRange(n, first, k).indirect && used + Span(first, k) + {b} == used + Span(first, k + 1)
  {
    hide Depth, FirstFree, Next;
    OneRangeDepth(n, first, k);
    if k == 0 {
      assert used + Span(first, 0) == used;
      FirstFreeUnique(used, v.blocks, hint, b, first);
    } else {
      assert first + k !in used + Span(first, k);
    }
  }

  lemma FreeRunStarts(n: Inode, used: set<nat>, blocks: nat, hint: nat, first: nat, count: nat)
    requires Blank(n) && FreeRun(used, blocks, hint, first, count)
    ensures n.ranges != [] && 0 < first < blocks && OneRange(n, first, 0) == n && used + Span(first, 0) == used
  {
  }

  lemma OneRangeBlocks(view: seq<Block>, n: Inode, first: nat, k: nat)
    requires Blank(n) && 0 < first
    ensures FileBlocks(view, OneRange(n, first, k)) == Ranges.Run(Range(first, k))
  {
    var n' := OneRange(n, first, k);
    assert Indirect(view, n') == [] && Flat([]) == [];
    if k > 0 {
      FlatNone(n'.ranges[1..]);
      FlatFirst(n'.ranges);
    }
  }

  /** File i, which was empty and is inode n, has gained the first k of count free blocks. */
  ghost predicate InRun(m: Mounted, i: nat, n: Inode, used: set<nat>, hint: nat, first: nat, k: nat, count: nat)
    reads m.bitmap, m.bitmap.buffer, m.nodes, set n | n in m.nodes :: n.ranges
  {
    && i < |m.nodes| && m.bitmap.Fits() && Blank(n) && FreeRun(used, m.volume.blocks, hint, first, count)
    && m.nodes[i].Value() == OneRange(n, first, k) && m.bitmap.Used() == used + Span(first, k)
    && m.bitmap.hint == if k == 0 then hint else Next(first, m.volume.blocks)
  }

  method ExpandInRun(m: Mounted, i: nat, ghost n: Inode, ghost used: set<nat>, ghost hint: nat, ghost first: nat,
                     ghost k: nat, ghost count: nat)
    returns (st: Status)
    requires m.Valid() && InRun(m, i, n, used, hint, first, k, count) && k < count
    modifies m.cache, m.cache.raw, m.cache.raw.device, m.cache.lru, m.cache.hash, m.bitmap`hint, m.bitmap.buffer
    modifies m.nodes[i], m.nodes[i].ranges
    ensures m.Valid() && st == Ok && InRun(m, i, n, used, hint, first, k + 1, count) && m.OthersKept(i)
  {
    hide Mounted.Valid, BlockBitmap.Used, Owned, OwnedSet, Content, SameOthers, Blank, ExpandStatus, Leaked;
    hide FileBlocks, Grew, FreeRun, OneRange, Next;
    ghost var view := m.cache.view;
    FreeRunStarts(n, used, m.volume.blocks, hint, first, count);
    OneRangeExpands(view, n, used, hint, first, k, count, m.volume);
    var newBlock;
    st, newBlock := m.InodeExpandBlocks(i);
    OneRangeGrows(view, n, used, hint, first, k, count, m.cache.view, m.nodes[i].Value(), newBlock, m.bitmap.hint,
                  m.volume);
    m.Parts();
  }

  /** Expansions of an empty file into a stretch of free blocks make one range. */
  method ExpandIntoRun(m: Mounted, i: nat, count: nat, ghost first: nat) returns (st: Status)
    requires m.Valid() && i < |m.nodes| && Blank(m.nodes[i].Value())
    requires FreeRun(m.bitmap.Used(), m.volume.blocks, m.bitmap.hint, first, count)
    modifies m.cache, m.cache.raw, m.cache.raw.device, m.cache.lru, m.cache.hash, m.bitmap`hint, m.bitmap.buffer
    modifies m.nodes[i], m.nodes[i].ranges
    ensures m.Valid() && m.OthersKept(i) && st == Ok && old(m.nodes[i].Value()).ranges != []
    ensures m.nodes[i].Value() == OneRange(old(m.nodes[i].Value()), first, count)
    ensures m.bitmap.Used() == old(m.bitmap.Used()) + Span(first, count)
    ensures FileBlocks(m.cache.view, m.nodes[i].Value()) == Ranges.Run(Range(first, count))
  {
    hide Mounted.Valid, BlockBitmap.Used, SameOthers, Blank, FileBlocks, FreeRun, OneRange, Next;
    m.Parts();
    ghost var start, n, used, hint := m.Now(), m.nodes[i].Value(), m.bitmap.Used(), m.bitmap.hint;
    SameOthersSelf(start.view, start.files, i);
    FreeRunStarts(n, used, m.volume.blocks, hint, first, count);
    st := Ok;
    for k := 0 to count
      invariant m.Valid() && st == Ok && InRun(m, i, n, used, hint, first, k, count)
      invariant SameOthers(start.view, start.files, m.cache.view, m.Files(), i)
    {
      ghost var at := m.Now();
      st := ExpandInRun(m, i, n, used, hint, first, k, count);
      SameOthersTwice(start.view, start.files, at.view, at.files, m.cache.view, m.Files(), i);
    }
    OneRangeBlocks(m.cache.view, n, first, count);
  }

  datatype Op =
    | Write(i: nat, pos: nat, data: Block)
    | Read(i: nat, pos: nat, length: nat)
    | Expand(i: nat)
    | Truncate(i: nat)

  /** What an operation returned: its status, the bytes written, the bytes read. */
  datatype Outcome = Outcome(st: Status, written: nat, data: Block)

  /** The bytes of all files. */
  ghost function Contents(s: Snapshot): (cs: seq<Block>)
    ensures |cs| == |s.files| && forall i :: 0 <= i < |cs| ==> cs[i] == Bytes(s, i)
  {
    seq(|s.files|, i requires 0 <= i < |s.files| => Bytes(s, i))
  }

  /** What an operation makes of independent byte strings. */
  ghost function Apply(cs: seq<Block>, op: Op, out: Outcome): (cs': seq<Block>)
    ensures |cs'| == |cs|
  {
    if op.i >= |cs| then cs
    else match op {
      case Write(i, pos, data) =>
        if out.written <= |data|
        then cs[i := Overwrite(cs[i], Mounted.Least(pos, |cs[i]|), data[..out.written])] else cs
      case Truncate(i) => cs[i := []]
      case Read(_, _, _) => cs
      case Expand(_) => cs
    }
  }

  /** What an operation that may need blocks answers. */
  ghost predicate GrowthStatus(st: Status) {
    st == Ok || st == DoubleIndirectNeeded || st == ErrResourcesExhausted
  }

  /**
   * What an operation answers, from moment a to moment b, and what it does to the blocks of its file. A write goes
   * to its end, or stops where the file is full and can get no block.
   */
  ghost predicate Answers(a: Snapshot, b: Snapshot, v: Volume, op: Op, out: Outcome) {
    op.i < |a.files| == |b.files| ==>
      match op {
        case Write(i, pos, data) =>
          && GrowthStatus(out.st)
          && exists at :: Ended(a, b, at, i, Mounted.Least(pos, a.files[i].fileSize), data, out.st, out.written, v)
        case Truncate(i) =>
          out.st == Ok && Blank(b.files[i]) && b.used == a.used - OwnedSet(a.view, a.files[i])
        case Read(i, pos, length) =>
          && b == a && out.st == (if pos < a.files[i].fileSize then Ok else ErrEndOfFile)
          && (out.st == Ok ==> out.data == Slice(Bytes(a, i), pos, length))
        case Expand(i) =>
          && out.st == ExpandStatus(a.view, a.files[i], a.used, v)
          && b.files[i].blockCount == a.files[i].blockCount + (if out.st == Ok then 1 else 0)
          && (if out.st == Ok then Took(a, b, i) else b.used == a.used + Leaked(a.files[i], a.used, v))
      }
  }

  /** An operation has acted as on independent byte strings. */
  ghost predicate Acted(a: Snapshot, b: Snapshot, v: Volume, op: Op, out: Outcome) {
    && |b.files| == |a.files| && Contents(b) == Apply(Contents(a), op, out)
    && Answers(a, b, v, op, out)
  }

  /** How many bytes the operations from k on would write. */
  ghost function Pending(ops: seq<Op>, k: nat): (r: nat)
    requires k <= |ops|
    decreases |ops| - k
  {
    if k == |ops| then 0 else (if ops[k].Write? then |ops[k].data| else 0) + Pending(ops, k + 1)
  }

  ghost function After(cs: seq<Block>, ops: seq<Op>, outs: seq<Outcome>, k: nat): (cs': seq<Block>)
    requires k <= |ops| && k <= |outs|
    ensures |cs'| == |cs|
  {
    if k == 0 then cs else Apply(After(cs, ops, outs, k - 1), ops[k - 1], outs[k - 1])
  }

  lemma WroteContents(a: Snapshot, b: Snapshot, i: nat, pos: nat, piece: Block)
    requires Wrote(a, b, i, pos, piece)
    ensures Contents(b) == Contents(a)[i := Overwrite(Contents(a)[i], pos, piece)]
  {
  }

  lemma KeptContents(a: Snapshot, b: Snapshot, i: nat)
    requires SameOthers(a.view, a.files, b.view, b.files, i) && i < |a.files|
    ensures Contents(b) == Contents(a)[i := Bytes(b, i)]
  {
  }

  /** A write that gets stuck behind the blocks of the file: it leaves the inode unmarked. */
  ghost predicate Unmarked(s: Snapshot, op: Op, v: Volume) {
    op.Write? && op.i < |s.files| && Stuck(s, op.i, Mounted.Least(op.pos, s.files[op.i].fileSize) + |op.data|, v)
  }

  /**
   * An operation has acted as on independent byte strings; an inode that changed is marked, unless the write got stuck.
   */
  twostate predicate Performed(m: Mounted, op: Op, out: Outcome)
    requires op.i < |m.nodes|
    reads m.cache, m.bitmap.buffer, m.nodes, set n | n in m.nodes :: n.ranges
  {
    && m.bitmap.Fits()
    && Acted(old(m.Now()), m.Now(), m.volume, op, out)
    && (old(m.nodes[op.i].dirty) ==> m.nodes[op.i].dirty)
    && (!old(m.nodes[op.i].dirty) && m.nodes[op.i].Value() != old(m.nodes[op.i].Value()) ==>
          (m.nodes[op.i].dirty <==> !Unmarked(old(m.Now()), op, m.volume)))
    && (Unmarked(old(m.Now()), op, m.volume) ==> out.st != Ok)
  }

  /** One of the first n operations is on file j. */
  ghost predicate Touched(ops: seq<Op>, n: nat, j: nat)
    requires n <= |ops|
  {
    exists k :: 0 <= k < n && ops[k].i == j
  }

  /** One of the first n operations is a write to file j, and failed. */
  ghost predicate Halted(ops: seq<Op>, outs: seq<Outcome>, n: nat, j: nat)
    requires n <= |ops| && n <= |outs|
  {
    exists k :: 0 <= k < n && ops[k].Write? && ops[k].i == j && outs[k].st != Ok
  }

  /**
   * After n operations: a file that none of them is on is as before, and an inode that changed is marked, unless a
   * write to it failed.
   */
  ghost predicate Tracked(files0: seq<Inode>, marks0: seq<bool>, files: seq<Inode>, marks: seq<bool>, ops: seq<Op>,
                          outs: seq<Outcome>, n: nat) {
    && |files0| == |marks0| == |files| == |marks| && n <= |ops| && n <= |outs|
    && forall j :: 0 <= j < |files| ==>
         && (!Touched(ops, n, j) ==> files[j] == files0[j] && marks[j] == marks0[j])
         && (marks0[j] ==> marks[j])
         && (marks[j] || files[j] == files0[j] || Halted(ops, outs, n, j))
  }

  lemma NothingTracked(files: seq<Inode>, marks: seq<bool>, ops: seq<Op>)
    requires |files| == |marks|
    ensures Tracked(files, marks, files, marks, ops, [], 0)
  {
  }

  lemma TrackedStep(files0: seq<Inode>, marks0: seq<bool>, files: seq<Inode>, marks: seq<bool>, ops: seq<Op>,
                    outs: seq<Outcome>, n: nat,
                    value: Inode, mark: bool, out: Outcome)
    requires Tracked(files0, marks0, files, marks, ops, outs, n) && n < |ops| && |outs| == n && ops[n].i < |files|
    requires marks[ops[n].i] ==> mark
    requires mark || value == files[ops[n].i] || (ops[n].Write? && out.st != Ok)
    ensures Tracked(files0, marks0, files[ops[n].i := value], marks[ops[n].i := mark], ops, outs + [out], n + 1)
  {
    var i, outs' := ops[n].i, outs + [out];
    forall j: nat | j < |files|
      ensures Touched(ops, n + 1, j) <==> Touched(ops, n, j) || j == i
      ensures Halted(ops, outs', n + 1, j) <==> Halted(ops, outs, n, j) || (ops[n].Write? && j == i && out.st != Ok)
    {
      if Halted(ops, outs, n, j) {
        var k :| 0 <= k < n && ops[k].Write? && ops[k].i == j && outs[k].st != Ok;
        assert outs'[k].st != Ok;
      }
      assert outs'[n] == out;
    }
  }

  /** One write. */
  method PerformWrite(m: Mounted, i: nat, pos: nat, data: Block) returns (out: Outcome)
    requires m.Valid() && i < |m.nodes| && m.nodes[i].fileSize + |data| < U32
    modifies m.cache, m.cache.raw, m.cache.raw.device, m.cache.lru, m.cache.hash, m.bitmap`hint, m.bitmap.buffer
    modifies m.nodes[i], m.nodes[i].ranges
    ensures m.Valid() && Performed(m, Op.Write(i, pos, data), out)
  {
    hide Mounted.Valid, BlockBitmap.Used, Owned, OwnedSet, Content, FileBlocks, SameOthers, Wrote, Overwrite;
    hide ExpandStatus, Capacity, Leaked, StoppedAt, Covers, Took;
    m.Parts();
    m.NowIs(i);
    ghost var start := m.Now();
    var st, written;
    ghost var at;
    st, written, at := m.InodeWriteFileBytes(i, pos, data);
    WroteContents(start, m.Now(), i, Mounted.Least(pos, start.files[i].fileSize), data[..written]);
    out := Outcome(st, written, []);
    m.Parts();
    assert Ended(start, m.Now(), at, i, Mounted.Least(pos, start.files[i].fileSize), data, out.st, out.written,
                 m.volume);
  }

  /** One read. */
  method PerformRead(m: Mounted, i: nat, pos: nat, length: nat) returns (out: Outcome)
    requires m.Valid() && i < |m.nodes|
    modifies m.cache, m.cache.raw, m.cache.raw.device, m.cache.lru, m.cache.hash, m.bitmap`hint, m.bitmap.buffer
    modifies m.nodes[i], m.nodes[i].ranges
    ensures m.Valid() && Performed(m, Op.Read(i, pos, length), out)
  {
    hide Mounted.Valid, BlockBitmap.Used, Owned, OwnedSet, Content, FileBlocks, SameOthers, Wrote, Overwrite;
    hide ExpandStatus, Capacity, Leaked;
    m.Parts();
    m.NowIs(i);
    ghost var start := m.Now();
    var st, data := m.InodeReadFileBytes(i, pos, length);
    out := Outcome(st, 0, data);
    m.Parts();
  }

  /** One expansion. */
  lemma ExpandActed(a: Snapshot, b: Snapshot, i: nat, st: Status, v: Volume)
    requires i < |a.files| == |b.files| && Contents(b) == Contents(a)
    requires st == ExpandStatus(a.view, a.files[i], a.used, v)
    requires b.files[i].blockCount == a.files[i].blockCount + if st == Ok then 1 else 0
    requires if st == Ok then Took(a, b, i) else b.used == a.used + Leaked(a.files[i], a.used, v)
    ensures Acted(a, b, v, Op.Expand(i), Outcome(st, 0, []))
  {
    hide ExpandStatus, Contents, Took, Leaked;
  }

  method PerformExpand(m: Mounted, i: nat) returns (out: Outcome)
    requires m.Valid() && i < |m.nodes|
    modifies m.cache, m.cache.raw, m.cache.raw.device, m.cache.lru, m.cache.hash, m.bitmap`hint, m.bitmap.buffer
    modifies m.nodes[i], m.nodes[i].ranges
    ensures m.Valid() && Performed(m, Op.Expand(i), out)
  {
    hide Mounted.Valid, BlockBitmap.Used, Owned, OwnedSet, Content, FileBlocks, SameOthers, Wrote, Overwrite;
    hide ExpandStatus, Capacity, Leaked, Answers, Contents, Acted, Grew, HintAfter, Took;
    m.Parts();
    m.NowIs(i);
    ghost var start := m.Now();
    ExpandStatuses(m.cache.view, m.nodes[i].Value(), m.bitmap.Used(), m.volume);
    var st, _ := m.InodeExpandBlocks(i);
    KeptContents(start, m.Now(), i);
    ExpandActed(start, m.Now(), i, st, m.volume);
    out := Outcome(st, 0, []);
    m.Parts();
  }

  /** One truncation. */
  method PerformTruncate(m: Mounted, i: nat) returns (out: Outcome)
    requires m.Valid() && i < |m.nodes|
    modifies m.cache, m.cache.raw, m.cache.raw.device, m.cache.lru, m.cache.hash, m.bitmap`hint, m.bitmap.buffer
    modifies m.nodes[i], m.nodes[i].ranges
    ensures m.Valid() && Performed(m, Op.Truncate(i), out)
  {
    hide Mounted.Valid, BlockBitmap.Used, Owned, OwnedSet, Content, FileBlocks, SameOthers, Wrote, Overwrite;
    hide ExpandStatus, Capacity, Leaked;
    m.Parts();
    m.NowIs(i);
    ghost var start := m.Now();
    var st := m.InodeTruncateFileBytes(i);
    KeptContents(start, m.Now(), i);
    m.NowIs(i);
    assert Bytes(m.Now(), i) == [];
    out := Outcome(st, 0, []);
    m.Parts();
  }

  /** One operation on one file. */
  method Perform(m: Mounted, op: Op) returns (out: Outcome)
    requires m.Valid() && op.i < |m.nodes|
    requires op.Write? ==> m.nodes[op.i].fileSize + |op.data| < U32
    modifies m.cache, m.cache.raw, m.cache.raw.device, m.cache.lru, m.cache.hash, m.bitmap`hint, m.bitmap.buffer
    modifies m.nodes[op.i], m.nodes[op.i].ranges
    ensures m.Valid() && Performed(m, op, out)
  {
    hide Mounted.Valid, Performed;
    match op {
      case Write(i, pos, data) => out := PerformWrite(m, i, pos, data);
      case Read(i, pos, length) => out := PerformRead(m, i, pos, length);
      case Expand(i) => out := PerformExpand(m, i);
      case Truncate(i) => out := PerformTruncate(m, i);
    }
  }

  ghost predicate Room(cs: seq<Block>, pending: nat) {
    forall i :: 0 <= i < |cs| ==> |cs[i]| + pending < U32
  }

  lemma RoomLeft(cs: seq<Block>, ops: seq<Op>, k: nat, out: Outcome)
    requires k < |ops| && Room(cs, Pending(ops, k))
    ensures Room(Apply(cs, ops[k], out), Pending(ops, k + 1))
  {
  }

  /** The first n operations, with their outcomes, led from each of these moments to the next. */
  ghost predicate Explained(trace: seq<Snapshot>, v: Volume, ops: seq<Op>, outs: seq<Outcome>, n: nat) {
    && |outs| == n <= |ops| && |trace| == n + 1
    && forall k :: 0 <= k < n ==> Acted(trace[k], trace[k + 1], v, ops[k], outs[k])
  }

  /** At every moment the files hold what the operations so far make of independent byte strings. */
  lemma {:induction false} ExplainedBytes(trace: seq<Snapshot>, v: Volume, ops: seq<Op>, outs: seq<Outcome>, n: nat,
                                          k: nat)
    requires Explained(trace, v, ops, outs, n) && k <= n
    ensures Contents(trace[k]) == After(Contents(trace[0]), ops, outs, k)
  {
    hide Apply, Answers, Contents;
    if k > 0 {
      ExplainedBytes(trace, v, ops, outs, n, k - 1);
      assert Acted(trace[k - 1], trace[k], v, ops[k - 1], outs[k - 1]);
    }
  }

  lemma SizesFit(m: Mounted)
    requires m.Valid() && m.bitmap.Fits() && Room(Contents(m.Now()), 0)
    ensures forall i :: 0 <= i < |m.nodes| ==> m.nodes[i].fileSize < U32
  {
    hide Mounted.Valid, Content;
    m.Parts();
    forall i | 0 <= i < |m.nodes|
      ensures m.nodes[i].fileSize < U32
    {
      m.NowIs(i);
      assert Contents(m.Now())[i] == Bytes(m.Now(), i);
    }
  }

  lemma FitsInFile(m: Mounted, ops: seq<Op>, k: nat)
    requires m.Valid() && k < |ops| && ops[k].i < |m.nodes| && Room(Contents(m.Now()), Pending(ops, k))
    ensures m.nodes[ops[k].i] in m.nodes
    ensures ops[k].Write? ==> m.nodes[ops[k].i].fileSize + |ops[k].data| < U32
  {
    m.NowIs(ops[k].i);
    assert Contents(m.Now())[ops[k].i] == Bytes(m.Now(), ops[k].i);
  }

  lemma NothingDone(a: Snapshot, v: Volume, ops: seq<Op>)
    ensures Explained([a], v, ops, [], 0)
  {
  }

  /** One more operation is explained. */
  lemma OneMore(trace: seq<Snapshot>, v: Volume, ops: seq<Op>, outs: seq<Outcome>, k: nat, out: Outcome, now: Snapshot)
    requires k < |ops| && Explained(trace, v, ops, outs, k) && Acted(trace[k], now, v, ops[k], out)
    ensures Explained(trace + [now], v, ops, outs + [out], k + 1)
  {
    hide Acted;
    var trace', outs' := trace + [now], outs + [out];
    forall j | 0 <= j <= k
      ensures Acted(trace'[j], trace'[j + 1], v, ops[j], outs'[j])
    {
      assert j < k ==> trace'[j + 1] == trace[j + 1] && outs'[j] == outs[j];
    }
  }

  twostate lemma OnlyNode(m: Mounted, new i: nat)
    requires i < |m.nodes|
    requires forall j :: 0 <= j < |m.nodes| && j != i ==> unchanged(m.nodes[j]) && unchanged(m.nodes[j].ranges)
    ensures m.Files() == old(m.Files())[i := m.nodes[i].Value()] && m.Marks() == old(m.Marks())[i := m.nodes[i].dirty]
  {
  }

  /** One operation, which changes one inode at most. */
  method PerformOne(m: Mounted, op: Op) returns (out: Outcome)
    requires m.Valid() && op.i < |m.nodes|
    requires op.Write? ==> m.nodes[op.i].fileSize + |op.data| < U32
    modifies m.cache, m.cache.raw, m.cache.raw.device, m.cache.lru, m.cache.hash, m.bitmap`hint, m.bitmap.buffer
    modifies m.nodes[op.i], m.nodes[op.i].ranges
    ensures m.Valid() && Performed(m, op, out)
    ensures m.Files() == old(m.Files())[op.i := m.nodes[op.i].Value()]
    ensures m.Marks() == old(m.Marks())[op.i := m.nodes[op.i].dirty]
  {
    hide Mounted.Valid, Performed, Mounted.Files, Mounted.Marks;
    m.NodesApart();
    out := Perform(m, op);
    OnlyNode(m, op.i);
  }

  /** One operation of a run. */
  method RunNext(m: Mounted, ops: seq<Op>, outs: seq<Outcome>, ghost trace: seq<Snapshot>, ghost files: seq<Inode>,
                 ghost marks: seq<bool>)
    returns (outs': seq<Outcome>, ghost trace': seq<Snapshot>)
    requires m.Valid() && m.bitmap.Fits() && |outs| < |ops| && ops[|outs|].i < |m.nodes|
    requires Explained(trace, m.volume, ops, outs, |outs|) && trace[|outs|] == m.Now()
    requires Room(Contents(m.Now()), Pending(ops, |outs|))
    requires Tracked(files, marks, m.Files(), m.Marks(), ops, outs, |outs|)
    modifies m.cache, m.cache.raw, m.cache.raw.device, m.cache.lru, m.cache.hash, m.bitmap`hint, m.bitmap.buffer
    modifies m.nodes[ops[|outs|].i], m.nodes[ops[|outs|].i].ranges
    ensures m.Valid() && m.bitmap.Fits() && |outs'| == |outs| + 1
    ensures Explained(trace', m.volume, ops, outs', |outs'|) && trace'[|outs'|] == m.Now() && trace'[0] == trace[0]
    ensures Room(Contents(m.Now()), Pending(ops, |outs'|))
    ensures Tracked(files, marks, m.Files(), m.Marks(), ops, outs', |outs'|)
  {
    hide Mounted.Valid, Mounted.Now, Tracked, Contents, Apply, Answers, Room, Pending, Stuck;
    hide BlockBitmap.Used, BlockBitmap.Fits, Mounted.Files, Mounted.Marks;
    var k := |outs|;
    ghost var files1, marks1, before := m.Files(), m.Marks(), m.Now();
    FitsInFile(m, ops, k);
    var out := PerformOne(m, ops[k]);
    RoomLeft(Contents(before), ops, k, out);
    OneMore(trace, m.volume, ops, outs, k, out, m.Now());
    TrackedStep(files, marks, files1, marks1, ops, outs, k, m.nodes[ops[k].i].Value(), m.nodes[ops[k].i].dirty, out);
    outs', trace' := outs + [out], trace + [m.Now()];
  }

  lemma NothingPending(ops: seq<Op>)
    ensures Pending(ops, |ops|) == 0
  {
  }

  /**
   * Any run of operations on any files acts on each file as on a byte string of its own, and
   * keeps every block with one owner at most and every owned block marked used. Inodes that changed
   * are marked, but for those of files to which a write failed.
   */
  method Run(m: Mounted, ops: seq<Op>) returns (outs: seq<Outcome>, ghost trace: seq<Snapshot>)
    requires m.Valid() && forall k :: 0 <= k < |ops| ==> ops[k].i < |m.nodes|
    requires Room(Contents(m.Now()), Pending(ops, 0))
    modifies m.cache, m.cache.raw, m.cache.raw.device, m.cache.lru, m.cache.hash, m.bitmap`hint, m.bitmap.buffer
    modifies m.nodes, set n | n in m.nodes :: n.ranges
    ensures m.Valid() && Explained(trace, m.volume, ops, outs, |ops|)
    ensures trace[0] == old(m.Now()) && trace[|ops|] == m.Now()
    ensures Contents(m.Now()) == After(old(Contents(m.Now())), ops, outs, |ops|)
    ensures Tracked(old(m.Files()), old(m.Marks()), m.Files(), m.Marks(), ops, outs, |ops|)
    ensures forall i :: 0 <= i < |m.nodes| ==> m.nodes[i].fileSize < U32
  {
    hide Mounted.Valid, Mounted.Now, Tracked, Contents, Room, Pending, After;
    hide Acted, BlockBitmap.Used, BlockBitmap.Fits;
    m.Parts();
    ghost var files, marks := m.Files(), m.Marks();
    outs, trace := [], [m.Now()];
    NothingDone(m.Now(), m.volume, ops);
    NothingTracked(files, marks, ops);
    for k := 0 to |ops|
      invariant m.Valid() && m.bitmap.Fits() && |outs| == k
      invariant Explained(trace, m.volume, ops, outs, k) && trace[0] == old(m.Now()) && trace[k] == m.Now()
      invariant Room(Contents(m.Now()), Pending(ops, k))
      invariant Tracked(files, marks, m.Files(), m.Marks(), ops, outs, k)
    {
      outs, trace := RunNext(m, ops, outs, trace, files, marks);
    }
    ExplainedBytes(trace, m.volume, ops, outs, |ops|, |ops|);
    NothingPending(ops);
    SizesFit(m);
  }
}
