/** What each elementary change to a file does to ownership and to the bytes of all files. */
module FileSteps {
  import opened Common
  import opened RawBlocks
  import opened Bitmaps
  import opened Ranges
  import opened RangeCodec
  import opened FileLayout
  import opened FileBytes

  lemma OwnedInside(o: seq<nat>, used: set<nat>, n: nat)
    requires Elems(o) <= used && forall b :: b in used ==> b < n
    ensures forall q :: 0 <= q < |o| ==> o[q] in Elems(o) && o[q] in used && o[q] < n
  {
  }

  /** The data blocks of a file are in range, distinct, and apart from its indirect block. */
  lemma DataBlocks(view: seq<Block>, files: seq<Inode>, i: nat, used: set<nat>, v: Volume)
    requires Owns(view, files, used, v) && i < |files|
    ensures var bs := FileBlocks(view, files[i]);
            && Within(bs, |view|) && Distinct(bs)
            && (forall q :: 0 <= q < |bs| ==>
                bs[q] in OwnedSet(view, files[i]) && bs[q] in used && bs[q] != files[i].indirect)
    ensures files[i].indirect != 0 ==> files[i].indirect in OwnedSet(view, files[i])
  {
    hide Flat, Shaped, Depth, Indirect, FileBlocks, Elems;
    var n := files[i];
    var bs, o := FileBlocks(view, n), Owned(view, n);
    assert OwnedSet(view, n) <= used - Reserved(v) && Sound(view, n, v);
    OwnedInside(o, used - Reserved(v), |view|);
    assert 0 in Reserved(v);
    assert n.indirect != 0 ==> o[|bs|] == n.indirect;
    forall q | 0 <= q < |bs|
      ensures bs[q] == o[q] && bs[q] != n.indirect
    {
    }
  }

  /** The bytes of a file are the first fileSize bytes of its blocks. */
  lemma ContentSize(view: seq<Block>, files: seq<Inode>, i: nat, used: set<nat>, v: Volume)
    requires Owns(view, files, used, v) && i < |files| && Sized(view, v.blockSize)
    ensures files[i].fileSize <= |Joined(view, FileBlocks(view, files[i]))|
    ensures |Joined(view, FileBlocks(view, files[i]))| == files[i].blockCount * v.blockSize
    ensures Content(view, files[i]) == Joined(view, FileBlocks(view, files[i]))[..files[i].fileSize]
  {
    DataBlocks(view, files, i, used, v);
    JoinedLength(view, FileBlocks(view, files[i]), v.blockSize);
  }

  /** An inode that reaches byte end. */
  function Reaching(n: Inode, end: nat): (r: Inode) {
    n.(fileSize := if end <= n.fileSize then n.fileSize else end)
  }

  /** The layout of a file depends on its ranges and its indirect block only. */
  lemma SameLayout(view: seq<Block>, view': seq<Block>, n: Inode, n': Inode, v: Volume)
    requires Sound(view, n, v) && |view| == |view'| && n' == n.(fileSize := n'.fileSize)
    requires n.indirect != 0 ==> view'[n.indirect] == view[n.indirect]
    requires n'.fileSize <= n.blockCount * v.blockSize
    ensures Sound(view', n', v) && FileBlocks(view', n') == FileBlocks(view, n)
    ensures Owned(view', n') == Owned(view, n) && OwnedSet(view', n') == OwnedSet(view, n)
  {
  }

  /** Writing a chunk into block q of file i keeps ownership. */
  lemma ChunkOwnership(view: seq<Block>, view': seq<Block>, files: seq<Inode>, i: nat, n': Inode, used: set<nat>,
                       v: Volume, q: nat)
    requires Owns(view, files, used, v) && i < |files| && |view'| == |view|
    requires q < |FileBlocks(view, files[i])| && n' == files[i].(fileSize := n'.fileSize)
    requires n'.fileSize <= files[i].blockCount * v.blockSize
    requires forall b :: 0 <= b < |view| && b != FileBlocks(view, files[i])[q] ==> view'[b] == view[b]
    ensures Owns(view', files[i := n'], used, v)
    ensures FileBlocks(view', n') == FileBlocks(view, files[i]) && Owned(view', n') == Owned(view, files[i])
    ensures forall j :: 0 <= j < |files| && j != i ==>
              Owned(view', files[j]) == Owned(view, files[j]) && Content(view', files[j]) == Content(view, files[j])
  {
    hide FileBlocks, Owned, OwnedSet, Content, Reserved, Span;
    DataBlocks(view, files, i, used, v);
    SameLayout(view, view', files[i], n', v);
    OwnershipKept(view, view', files, i, n', used, used, v);
  }

  /** A write to a data block of a file leaves its indirect block alone. */
  lemma IndirectKept(view: seq<Block>, files: seq<Inode>, i: nat, used: set<nat>, v: Volume, q: nat, view': seq<Block>,
                     n': Inode)
    requires Owns(view, files, used, v) && i < |files| && q < |FileBlocks(view, files[i])|
    requires n' == files[i].(fileSize := n'.fileSize) && |view'| == |view|
    requires forall b :: 0 <= b < |view| && b != FileBlocks(view, files[i])[q] ==> view'[b] == view[b]
    ensures Indirect(view', n') == Indirect(view, files[i])
  {
    hide FileBlocks, Owned, OwnedSet, Reserved, Span;
    DataBlocks(view, files, i, used, v);
  }

  /** Byte pos is byte off of block q. */
  ghost predicate Locates(pos: nat, q: nat, off: nat, s: nat) {
    off < s && pos == q * s + off
  }

  /** The bytes of file i after a chunk is written at byte pos, which is in its block q. */
  lemma ChunkContent(view: seq<Block>, files: seq<Inode>, i: nat, used: set<nat>, v: Volume,
                     q: nat, off: nat, pos: nat, b: nat, buf: Block)
    requires Owns(view, files, used, v) && i < |files| && Sized(view, v.blockSize)
    requires q < |FileBlocks(view, files[i])| && off + |buf| <= v.blockSize
    requires Locates(pos, q, off, v.blockSize) && pos <= files[i].fileSize
    requires b == FileBlocks(view, files[i])[q] && b < |view| && |view[b]| == v.blockSize
    ensures |Content(view, files[i])| == files[i].fileSize
    ensures var view', n' := view[b := Splice(view[b], off, buf)], Reaching(files[i], pos + |buf|);
            && Owns(view', files[i := n'], used, v)
            && FileBlocks(view', n') == FileBlocks(view, files[i]) && Owned(view', n') == Owned(view, files[i])
            && Content(view', n') == Overwrite(Content(view, files[i]), pos, buf)
            && Indirect(view', n') == Indirect(view, files[i])
            && (forall j :: 0 <= j < |files| && j != i ==>
                  && Owned(view', files[j]) == Owned(view, files[j])
                  && Content(view', files[j]) == Content(view, files[j]))
  {
    hide FileBlocks, Owned, OwnedSet, Reserved, Span, Sound, Joined;
    var n, bs := files[i], FileBlocks(view, files[i]);
    DataBlocks(view, files, i, used, v);
    ContentSize(view, files, i, used, v);
    ChunkWritten(view, bs, q, off, buf, v.blockSize);
    var view', n' := view[b := Splice(view[b], off, buf)], Reaching(n, pos + |buf|);
    ChunkOwnership(view, view', files, i, n', used, v, q);
    IndirectKept(view, files, i, used, v, q, view', n');
    SpliceIsOverwrite(Joined(view, bs), n.fileSize, pos, buf);
  }

  /** The free blocks of a volume. */
  ghost function FreeBlocks(used: set<nat>, blocks: nat): (free: set<nat>) {
    Span(0, blocks) - used
  }

  lemma FreeOrNot(used: set<nat>, blocks: nat)
    ensures HasFree(used, blocks) <==> FreeBlocks(used, blocks) != {}
  {
    if HasFree(used, blocks) {
      var b: nat :| b < blocks && b !in used;
      assert b in FreeBlocks(used, blocks);
    }
  }

  /** A free block taken leaves another exactly when there were two. */
  lemma OneTaken(used: set<nat>, blocks: nat, b: nat)
    requires b < blocks && b !in used
    ensures HasFree(used, blocks)
    ensures HasFree(used + {b}, blocks) <==> 2 <= |FreeBlocks(used, blocks)|
    ensures !HasFree(used + {b}, blocks) <==> FreeBlocks(used, blocks) == {b}
  {
    var free := FreeBlocks(used, blocks);
    var rest := free - {b};
    assert free == rest + {b};
    if rest != {} {
      var c :| c in rest;
      assert c < blocks && c !in used + {b};
    }
  }

  /** What adding a block to a file answers. */
  ghost function ExpandStatus(view: seq<Block>, n: Inode, used: set<nat>, v: Volume): (st: Status) {
    var ranges := if n.indirect == 0 then n.ranges else Indirect(view, n);
    if CanGrow(ranges, used, v.blocks) then Ok
    else if Depth(ranges) < |ranges| then if HasFree(used, v.blocks) then Ok else ErrResourcesExhausted
    else if n.indirect != 0 then DoubleIndirectNeeded
    else if 2 <= |FreeBlocks(used, v.blocks)| then Ok else ErrResourcesExhausted
  }

  /**
   * The ranges of the file are used up and its last one cannot grow, so that it needs an indirect
   * block besides the new one, but only one block is free.
   */
  ghost predicate Leaks(n: Inode, used: set<nat>, v: Volume) {
    && n.indirect == 0 && Depth(n.ranges) == |n.ranges|
    && !CanGrow(n.ranges, used, v.blocks) && |FreeBlocks(used, v.blocks)| == 1
  }

  /** The block that a failed expansion leaves used but unowned. */
  ghost function Leaked(n: Inode, used: set<nat>, v: Volume): (bs: set<nat>) {
    if Leaks(n, used, v) then FreeBlocks(used, v.blocks) else {}
  }

  /** A failed expansion moves the hint behind the block it leaves used, if there is one. */
  ghost predicate HintAfter(n: Inode, used: set<nat>, hint: nat, hint': nat, v: Volume) {
    if Leaks(n, used, v) then forall b :: b in FreeBlocks(used, v.blocks) ==>
        hint' == Next(b, v.blocks) else hint' == hint
  }

  lemma NoLeak(n: Inode, used: set<nat>, hint: nat, v: Volume)
    requires n.indirect != 0 || CanGrow(n.ranges, used, v.blocks) || Depth(n.ranges) < |n.ranges|
    ensures HintAfter(n, used, hint, hint, v)
  {
  }

  lemma LeakMovesHint(n: Inode, used: set<nat>, hint: nat, hint': nat, v: Volume)
    requires n.indirect == 0 && !CanGrow(n.ranges, used, v.blocks) && Depth(n.ranges) == |n.ranges|
    requires FreeBlocks(used, v.blocks) == {} ==> hint' == hint
    requires forall b :: FreeBlocks(used, v.blocks) == {b} ==> hint' == Next(b, v.blocks)
    requires |FreeBlocks(used, v.blocks)| < 2
    ensures HintAfter(n, used, hint, hint', v)
  {
    hide CanGrow, Depth, Next;
    var free := FreeBlocks(used, v.blocks);
    if free != {} {
      var b :| b in free;
      assert free - {b} == {} by {
        if c :| c in free - {b} {
          SubsetSize({b, c}, free);
        }
      }
      assert free == {b};
    }
  }

  /** A file that grows in its own ranges, or has no range to open and no free block. */
  lemma InlineStatus(view: seq<Block>, n: Inode, used: set<nat>, v: Volume)
    requires n.indirect == 0 && (CanGrow(n.ranges, used, v.blocks) || Depth(n.ranges) < |n.ranges|)
    ensures ExpandStatus(view, n, used, v) ==
              if CanGrow(n.ranges, used, v.blocks) || HasFree(used, v.blocks) then Ok else ErrResourcesExhausted
    ensures Leaked(n, used, v) == {}
  {
  }

  /** A file that needs an indirect block. */
  lemma NewIndirectStatus(view: seq<Block>, n: Inode, used: set<nat>, v: Volume)
    requires n.indirect == 0 && !CanGrow(n.ranges, used, v.blocks) && Depth(n.ranges) == |n.ranges|
    ensures ExpandStatus(view, n, used, v) == if 2 <= |FreeBlocks(used, v.blocks)| then Ok else ErrResourcesExhausted
    ensures Leaked(n, used, v) == if |FreeBlocks(used, v.blocks)| == 1 then FreeBlocks(used, v.blocks) else {}
  {
  }

  /** A file that has an indirect block. */
  lemma IndirectStatus(view: seq<Block>, n: Inode, used: set<nat>, v: Volume)
    requires n.indirect != 0
    ensures var a := Indirect(view, n);
            ExpandStatus(view, n, used, v) ==
              if !CanGrow(a, used, v.blocks) && Depth(a) == |a| then DoubleIndirectNeeded
              else if CanGrow(a, used, v.blocks) || HasFree(used, v.blocks) then Ok else ErrResourcesExhausted
    ensures Leaked(n, used, v) == {}
  {
  }

  /** When blocks run out, none is free afterwards. */
  lemma ExpandStatuses(view: seq<Block>, n: Inode, used: set<nat>, v: Volume)
    ensures var st := ExpandStatus(view, n, used, v);
            st == Ok || st == DoubleIndirectNeeded
                || (st == ErrResourcesExhausted && !HasFree(used + Leaked(n, used, v), v.blocks))
  {
    if HasFree(used + Leaked(n, used, v), v.blocks) {
      var b: nat :| b < v.blocks && b !in used + Leaked(n, used, v);
      OneTaken(used, v.blocks, b);
    }
  }

  /**
   * Inode n has become n' by gaining data block b at the end, and possibly an indirect block:
   * both were free, and nothing else was touched.
   */
  ghost predicate Extends(view: seq<Block>, view': seq<Block>, n: Inode, n': Inode, b: nat, used: set<nat>, v: Volume) {
    && |view'| == |view|
    && |n'.ranges| == RANGES_IN_INODE && Shaped(n'.ranges) && n'.double == 0
    && (n'.indirect != 0 ==>
          n'.indirect < |view| && Depth(n'.ranges) == RANGES_IN_INODE && Shaped(Indirect(view', n')))
    && FileBlocks(view', n') == FileBlocks(view, n) + [b]
    && n'.blockCount == n.blockCount + 1 && n'.fileSize == n.fileSize
    && b < v.blocks && b !in used
    && (n'.indirect == n.indirect
        || (n.indirect == 0 && n'.indirect !in used && n'.indirect != b && n'.indirect < v.blocks))
    && (forall c :: 0 <= c < |view| && c != b && (c == 0 || c != n'.indirect) ==> view'[c] == view[c])
  }

  /**
   * Inode n has become n' by gaining block b: in the ranges of its indirect block if it has one, otherwise in its
   * own while they last, and otherwise in those of a new indirect block, which takes the first free block.
   */
  ghost predicate Grew(view: seq<Block>, n: Inode, used: set<nat>, hint: nat,
                       view': seq<Block>, n': Inode, b: nat, hint': nat, v: Volume) {
    if n.indirect != 0 then
      && n' == n.(blockCount := n.blockCount + 1)
      && Appended(Indirect(view, n), used, v.blocks, hint, Indirect(view', n'), b, hint')
    else if CanGrow(n.ranges, used, v.blocks) || Depth(n.ranges) < |n.ranges| then
      && n' == n.(ranges := n'.ranges, blockCount := n.blockCount + 1)
      && Appended(n.ranges, used, v.blocks, hint, n'.ranges, b, hint')
    else
      && n' == n.(indirect := n'.indirect, blockCount := n.blockCount + 1)
      && FirstFree(used, v.blocks, hint, n'.indirect)
      && Appended(Decode(Zeros(v.blockSize)), used + {n'.indirect}, v.blocks, Next(n'.indirect, v.blocks),
                  Indirect(view', n'), b, hint')
  }

  lemma GrewInline(view: seq<Block>, n: Inode, ranges: seq<Range>, b: nat, view': seq<Block>, used: set<nat>,
                   hint: nat, hint': nat, v: Volume)
    requires n.indirect == 0 && Appended(n.ranges, used, v.blocks, hint, ranges, b, hint')
    ensures Grew(view, n, used, hint, view', n.(ranges := ranges, blockCount := n.blockCount + 1), b, hint', v)
  {
    hide Depth, CanGrow, FirstFree;
  }

  lemma GrewIndirect(view: seq<Block>, n: Inode, x: Block, b: nat, z: Block, used: set<nat>,
                     hint: nat, hint': nat, v: Volume)
    requires 0 < n.indirect < |view| && b < |view| && b != n.indirect
    requires Appended(Decode(view[n.indirect]), used, v.blocks, hint, Decode(x), b, hint')
    ensures Grew(view, n, used, hint, view[n.indirect := x][b := z], n.(blockCount := n.blockCount + 1), b, hint', v)
  {
    hide Depth, CanGrow, FirstFree, Appended, Decode;
  }

  lemma GrewNewIndirect(view: seq<Block>, n: Inode, ib: nat, x: Block, b: nat, z: Block, used: set<nat>,
                        hint: nat, hint': nat, v: Volume)
    requires n.indirect == 0 && !CanGrow(n.ranges, used, v.blocks) && Depth(n.ranges) == |n.ranges|
    requires 0 < ib < |view| && b < |view| && b != ib && FirstFree(used, v.blocks, hint, ib)
    requires Appended(Decode(Zeros(v.blockSize)), used + {ib}, v.blocks, Next(ib, v.blocks), Decode(x), b, hint')
    ensures Grew(view, n, used, hint, view[ib := x][b := z],
                 n.(indirect := ib, blockCount := n.blockCount + 1), b, hint', v)
  {
    hide Depth, CanGrow, FirstFree, Appended, Decode;
  }

  function Smaller(a: nat, b: nat): (r: nat) {
    if a < b then a else b
  }

  /**
   * How many blocks a file can gain at least: by its unused ranges, those of an indirect block to come, and free
   * blocks.
   */
  ghost function Space(view: seq<Block>, n: Inode, used: set<nat>, v: Volume): (r: nat) {
    var free := |FreeBlocks(used, v.blocks)|;
    if n.indirect != 0 then Smaller(|Indirect(view, n)| - Depth(Indirect(view, n)), free)
    else
      var slots := |n.ranges| - Depth(n.ranges);
      if free <= slots then free else Smaller(slots + v.blockSize / RANGE_SIZE, free - 1)
  }

  /** While there is space, a block can be had. */
  lemma SpaceExpands(view: seq<Block>, n: Inode, used: set<nat>, v: Volume)
    requires 0 < Space(view, n, used, v)
    ensures ExpandStatus(view, n, used, v) == Ok
  {
    hide Depth, CanGrow;
    FreeOrNot(used, v.blocks);
  }

  lemma FreeLess(used: set<nat>, blocks: nat, b: nat)
    requires b < blocks && b !in used
    ensures |FreeBlocks(used + {b}, blocks)| == |FreeBlocks(used, blocks)| - 1
  {
    assert FreeBlocks(used, blocks) == FreeBlocks(used + {b}, blocks) + {b};
  }

  /** A block gained takes one off the space at most. */
  lemma SpaceLeft(view: seq<Block>, n: Inode, used: set<nat>, hint: nat,
                 view': seq<Block>, n': Inode, b: nat, hint': nat, v: Volume)
    requires Sound(view, n, v) && 0 in used && v.blocks <= U32 && Grew(view, n, used, hint, view', n', b, hint', v)
    ensures var used' := used + {b} + if n'.indirect == n.indirect then {} else {n'.indirect};
            n'.blockCount == n.blockCount + 1 && Space(view, n, used, v) <= Space(view', n', used', v) + 1
  {
    hide Depth, CanGrow, FirstFree, Next, Flat, Shaped, Appended, FreeBlocks, Decode, Distinct, FileBlocks;
    if n.indirect != 0 {
      AppendedFlat(Indirect(view, n), used, v.blocks, hint, Indirect(view', n'), b, hint');
      assert used + {b} + {} == used + {b};
      FreeLess(used, v.blocks, b);
    } else if CanGrow(n.ranges, used, v.blocks) || Depth(n.ranges) < |n.ranges| {
      AppendedFlat(n.ranges, used, v.blocks, hint, n'.ranges, b, hint');
      assert used + {b} + {} == used + {b};
      FreeLess(used, v.blocks, b);
    } else {
      var ib := n'.indirect;
      IsFree(used, v.blocks, hint, ib);
      DecodeZeros(v.blockSize);
      AppendedFlat(Decode(Zeros(v.blockSize)), used + {ib}, v.blocks, Next(ib, v.blocks), Indirect(view', n'), b,
                   hint');
      FreeLess(used, v.blocks, ib);
      FreeLess(used + {ib}, v.blocks, b);
      assert used + {b} + {ib} == used + {ib} + {b};
    }
  }

  lemma Snoc(bs: seq<nat>, x: nat, b: nat, y: nat)
    requires Distinct(bs) && b !in bs && y !in bs && b != x && (y == x || (x == 0 && y != b))
    ensures var o, o' := bs + (if x == 0 then [] else [x]), bs + [b] + (if y == 0 then [] else [y]);
            && (y != b || y == 0 ==> Distinct(o'))
            && Elems(o') == Elems(o) + {b} + if y == x then {} else {y}
  {
    var o, o' := bs + (if x == 0 then [] else [x]), bs + [b] + (if y == 0 then [] else [y]);
    assert forall z :: z in o' <==> z in bs || z == b || (y != 0 && z == y);
    assert forall z :: z in o <==> z in bs || (x != 0 && z == x);
  }

  lemma ExtendsOwned(view: seq<Block>, view': seq<Block>, files: seq<Inode>, i: nat, n': Inode, b: nat, used: set<nat>,
                     v: Volume)
    requires Owns(view, files, used, v) && i < |files| && Extends(view, view', files[i], n', b, used, v)
    ensures Sound(view', n', v)
    ensures OwnedSet(view', n') ==
              OwnedSet(view, files[i]) + {b} + if n'.indirect == files[i].indirect then {} else {n'.indirect}
  {
    hide Depth, Shaped, Flat, Span;
    assert 0 in Reserved(v);
    var n := files[i];
    DataBlocks(view, files, i, used, v);
    assert Sound(view, n, v) && OwnedSet(view, n) <= used;
    MulMono(n.blockCount, n'.blockCount, v.blockSize);
    Snoc(FileBlocks(view, n), n.indirect, b, n'.indirect);
  }

  lemma ExtendedOwnership(view: seq<Block>, view': seq<Block>, files: seq<Inode>, i: nat, n': Inode, b: nat,
                          used: set<nat>, used': set<nat>, v: Volume)
    requires Owns(view, files, used, v) && i < |files| && Extends(view, view', files[i], n', b, used, v)
    requires used' == used + {b} + if n'.indirect == files[i].indirect then {} else {n'.indirect}
    ensures Owns(view', files[i := n'], used', v)
    ensures used' == used + OwnedSet(view', n') && b < |view'| && b !in used
    ensures OwnedSet(view, files[i]) <= OwnedSet(view', n') && OwnedSet(view', n') !! used - OwnedSet(view, files[i])
    ensures FileBlocks(view', n') == FileBlocks(view, files[i]) + [b] && n'.blockCount == files[i].blockCount + 1
    ensures n'.fileSize == files[i].fileSize
    ensures forall j :: 0 <= j < |files| && j != i ==>
              Owned(view', files[j]) == Owned(view, files[j]) && Content(view', files[j]) == Content(view, files[j])
  {
    hide FileBlocks, Owned, OwnedSet, Content, Sound, Reserved;
    DataBlocks(view, files, i, used, v);
    ExtendsOwned(view, view', files, i, n', b, used, v);
    assert OwnedSet(view, files[i]) <= used;
    OwnershipKept(view, view', files, i, n', used, used', v);
  }

  /** Gaining a block changes no byte of the file. */
  lemma ExtendedContent(view: seq<Block>, view': seq<Block>, files: seq<Inode>, i: nat, n': Inode, b: nat,
                        used: set<nat>, v: Volume)
    requires Owns(view, files, used, v) && i < |files| && Extends(view, view', files[i], n', b, used, v)
    requires Sized(view, v.blockSize)
    ensures Content(view', n') == Content(view, files[i])
  {
    hide Owned, OwnedSet, Sound, Reserved;
    var bs := FileBlocks(view, files[i]);
    DataBlocks(view, files, i, used, v);
    ContentSize(view, files, i, used, v);
    JoinedFrame(view, view', bs);
    JoinedConcat(view', bs, [b]);
  }

  /** An inode without blocks. */
  ghost predicate Blank(n: Inode) {
    && |n.ranges| == RANGES_IN_INODE && Shaped(n.ranges) && Flat(n.ranges) == []
    && n.indirect == 0 && n.double == 0 && n.blockCount == 0 && n.fileSize == 0
  }

  lemma EmptyIsBlank()
    ensures Blank(EMPTY_INODE)
  {
    DepthIs(EMPTY_INODE.ranges, 0);
  }

  /** Releasing all blocks of a file keeps ownership and leaves every other file alone. */
  lemma Truncated(view: seq<Block>, files: seq<Inode>, i: nat, n': Inode, used: set<nat>, v: Volume)
    requires Owns(view, files, used, v) && i < |files| && Blank(n')
    ensures Owns(view, files[i := n'], used - OwnedSet(view, files[i]), v)
    ensures Owned(view, n') == [] && Content(view, n') == []
  {
    assert Owned(view, n') == [] && Sound(view, n', v);
    hide FileBlocks, Owned, Content, Sound, Reserved, Span;
    OwnershipKept(view, view, files, i, n', used, used - OwnedSet(view, files[i]), v);
  }

  /** The three ways a file gains block b: in its own ranges, in its indirect block, or in a new indirect block ib. */
  lemma ExtendInline(view: seq<Block>, n: Inode, ranges: seq<Range>, b: nat, z: Block, used: set<nat>, v: Volume)
    requires Sound(view, n, v) && n.indirect == 0 && b < v.blocks <= |view| && b !in used
    requires |ranges| == RANGES_IN_INODE && Shaped(ranges) && Flat(ranges) == Flat(n.ranges) + [b]
    ensures Extends(view, view[b := z], n, n.(ranges := ranges, blockCount := n.blockCount + 1), b, used, v)
  {
  }

  lemma ExtendIndirect(view: seq<Block>, n: Inode, x: Block, b: nat, z: Block, used: set<nat>, v: Volume)
    requires Sound(view, n, v) && n.indirect != 0 && b < v.blocks <= |view| && b !in used && n.indirect in used
    requires Shaped(Decode(x)) && Flat(Decode(x)) == Flat(Decode(view[n.indirect])) + [b]
    ensures Extends(view, view[n.indirect := x][b := z], n, n.(blockCount := n.blockCount + 1), b, used, v)
  {
  }

  lemma ExtendNewIndirect(view: seq<Block>, n: Inode, ib: nat, x: Block, b: nat, z: Block, used: set<nat>, v: Volume)
    requires Sound(view, n, v) && n.indirect == 0 && Depth(n.ranges) == RANGES_IN_INODE
    requires b < v.blocks <= |view| && b !in used && 0 in used && ib < v.blocks && ib !in used && ib != b
    requires Shaped(Decode(x)) && Flat(Decode(x)) == [b]
    ensures Extends(view, view[ib := x][b := z], n, n.(indirect := ib, blockCount := n.blockCount + 1), b, used, v)
  {
  }

  /** Marking free blocks used and writing to them, with no inode gaining them, changes no file. */
  lemma Unowned(view: seq<Block>, view': seq<Block>, files: seq<Inode>, used: set<nat>, used': set<nat>, v: Volume)
    requires Owns(view, files, used, v) && |view| == |view'| && used <= used' <= Span(0, v.blocks)
    requires forall b :: b in used && b < |view| ==> view'[b] == view[b]
    ensures Owns(view', files, used', v)
    ensures forall j :: 0 <= j < |files| ==>
              && Owned(view', files[j]) == Owned(view, files[j])
              && OwnedSet(view', files[j]) == OwnedSet(view, files[j])
              && Content(view', files[j]) == Content(view, files[j])
  {
    hide Sound, Owned, OwnedSet, Content, FileBlocks, Reserved, Span;
    forall j | 0 <= j < |files|
      ensures OwnedSet(view', files[j]) == OwnedSet(view, files[j])
      ensures Sound(view', files[j], v) && Owned(view', files[j]) == Owned(view, files[j])
      ensures Content(view', files[j]) == Content(view, files[j])
    {
      Untouched(view, view', files[j], v);
    }
  }

  /** All inodes but inode i, and the blocks and bytes of their files, are the same. */
  ghost predicate SameOthers(view: seq<Block>, files: seq<Inode>, view': seq<Block>, files': seq<Inode>, i: nat) {
    && |files| == |files'|
    && forall j :: 0 <= j < |files| && j != i ==>
         && files'[j] == files[j]
         && Owned(view', files[j]) == Owned(view, files[j])
         && Content(view', files[j]) == Content(view, files[j])
  }

  lemma SameOthersSelf(view: seq<Block>, files: seq<Inode>, i: nat)
    ensures SameOthers(view, files, view, files, i)
  {
  }

  lemma SameOthersTwice(view: seq<Block>, files: seq<Inode>, view': seq<Block>, files': seq<Inode>,
                        view'': seq<Block>, files'': seq<Inode>, i: nat)
    requires SameOthers(view, files, view', files', i) && SameOthers(view', files', view'', files'', i)
    ensures SameOthers(view, files, view'', files'', i)
  {
  }

  ghost predicate PieceAt(c: Block, pos: nat, piece: Block) {
    pos + |piece| <= |c| && piece == c[pos..pos + |piece|]
  }

  lemma PieceOfPrefix(c: Block, size: nat, pos: nat, piece: Block)
    requires pos + |piece| <= size <= |c| && c[pos..pos + |piece|] == piece
    ensures PieceAt(c[..size], pos, piece)
  {
  }

  /** A piece of a file that lies in its block q. */
  lemma PieceOfContent(view: seq<Block>, files: seq<Inode>, i: nat, used: set<nat>, v: Volume,
                       q: nat, off: nat, pos: nat, len: nat)
    requires Owns(view, files, used, v) && i < |files| && Sized(view, v.blockSize)
    requires q < |FileBlocks(view, files[i])| && off + len <= v.blockSize
    requires Locates(pos, q, off, v.blockSize) && pos + len <= files[i].fileSize
    ensures |Content(view, files[i])| == files[i].fileSize
    ensures FileBlocks(view, files[i])[q] < |view| && |view[FileBlocks(view, files[i])[q]]| == v.blockSize
    ensures PieceAt(Content(view, files[i]), pos, view[FileBlocks(view, files[i])[q]][off..off + len])
  {
    hide FileBlocks, Sound, Joined, Owned, OwnedSet, Reserved, Span;
    DataBlocks(view, files, i, used, v);
    ContentSize(view, files, i, used, v);
    var blocks := FileBlocks(view, files[i]);
    ChunkRead(view, blocks, q, off, len, v.blockSize);
    PieceOfPrefix(Joined(view, blocks), files[i].fileSize, pos, view[blocks[q]][off..off + len]);
  }

  lemma NextBlock(q: nat, s: nat)
    ensures (q + 1) * s == q * s + s
  {
  }

  lemma Position(q: nat, off: nat, s: nat, count: nat, size: nat)
    requires off < s && q * s + off <= size <= count * s
    ensures q * s + off < size ==> q < count
    ensures q >= count ==> q == count && off == 0
  {
    if q >= count {
      MulMono(count, q, s);
    }
    if q > count {
      MulMono(count + 1, q, s);
      NextBlock(count, s);
    }
  }

  /** A position inside the file lies in one of its blocks; one past all blocks lies right behind them. */
  lemma BlockOfPosition(view: seq<Block>, files: seq<Inode>, i: nat, used: set<nat>, v: Volume, pos: nat, q: nat,
                        off: nat)
    requires Owns(view, files, used, v) && i < |files| && Locates(pos, q, off, v.blockSize)
    requires pos <= files[i].fileSize
    ensures files[i].blockCount == |FileBlocks(view, files[i])|
    ensures pos < files[i].fileSize ==> q < files[i].blockCount
    ensures q >= files[i].blockCount ==> q == files[i].blockCount && off == 0
  {
    hide FileBlocks, Owned, OwnedSet, Reserved, Span;
    assert Sound(view, files[i], v);
    Position(q, off, v.blockSize, files[i].blockCount, files[i].fileSize);
  }

  method LocateStart(pos: nat, s: nat) returns (q: nat, off: nat)
    requires 0 < s
    ensures off < s && Locates(pos, q, off, s)
  {
    Split(pos, s);
    q, off := pos / s, pos % s;
  }

  /** Moving on by k bytes inside a block, or to the start of the next. */
  lemma LocateNext(pos: nat, q: nat, off: nat, s: nat, k: nat)
    requires Locates(pos, q, off, s) && off + k <= s
    ensures if off + k == s then Locates(pos + k, q + 1, 0, s) else Locates(pos + k, q, off + k, s)
  {
    NextBlock(q, s);
  }

  /** The bytes of c from pos on, at most length of them. */
  function Slice(c: Block, pos: nat, length: nat): (r: Block) {
    if pos >= |c| then [] else if pos + length <= |c| then c[pos..pos + length] else c[pos..]
  }

  /** What has been read up to byte end is the slice, when all was read or the file has ended. */
  lemma SliceIs(c: Block, pos: nat, length: nat, end: nat)
    requires pos < |c| && pos <= end <= |c| && (end == pos + length || (end == |c| && end <= pos + length))
    ensures c[pos..end] == Slice(c, pos, length)
  {
  }

  lemma NextPiece(c: Block, pos: nat, mid: nat, piece: Block)
    requires pos <= mid && PieceAt(c, mid, piece)
    ensures mid + |piece| <= |c| && c[pos..mid] + piece == c[pos..mid + |piece|]
  {
  }

  /** The blocks, the inodes and the used blocks of a volume at one moment. */
  datatype Snapshot = Snapshot(view: seq<Block>, files: seq<Inode>, used: set<nat>)

  ghost function Bytes(s: Snapshot, i: nat): (c: Block)
    requires i < |s.files|
  {
    Content(s.view, s.files[i])
  }

  /** From moment a to moment b, piece was written at byte pos of file i, and no other file changed. */
  ghost predicate Wrote(a: Snapshot, b: Snapshot, i: nat, pos: nat, piece: Block) {
    && i < |a.files| && SameOthers(a.view, a.files, b.view, b.files, i)
    && |Bytes(a, i)| == a.files[i].fileSize && |Bytes(b, i)| == b.files[i].fileSize
    && pos <= |Bytes(a, i)| && Bytes(b, i) == Overwrite(Bytes(a, i), pos, piece)
    && a.used <= b.used
  }

  /** From moment a to moment b, nothing but the size and the bytes of file i may have changed. */
  ghost predicate SameShape(a: Snapshot, b: Snapshot, i: nat) {
    && i < |a.files| && i < |b.files| && b.used == a.used
    && b.files[i] == a.files[i].(fileSize := b.files[i].fileSize)
    && Indirect(b.view, b.files[i]) == Indirect(a.view, a.files[i])
  }

  lemma SameStatus(a: Snapshot, b: Snapshot, i: nat, v: Volume)
    requires SameShape(a, b, i)
    ensures ExpandStatus(b.view, b.files[i], b.used, v) == ExpandStatus(a.view, a.files[i], a.used, v)
  {
  }

  /** How many bytes the blocks of a file hold. */
  ghost function Capacity(n: Inode, v: Volume): (r: nat) {
    n.blockCount * v.blockSize
  }

  /** A write up to byte end runs past the blocks of file i, and the first block it needs cannot be had. */
  ghost predicate Stuck(s: Snapshot, i: nat, end: nat, v: Volume) {
    i < |s.files| && end > Capacity(s.files[i], v) && ExpandStatus(s.view, s.files[i], s.used, v) != Ok
  }

  /**
   * A write stopped at moment at, when file i was full and could not get another block for the reason st. Nothing has
   * changed since, but for a block that the attempt may have left used.
   */
  ghost predicate StoppedAt(at: Snapshot, now: Snapshot, i: nat, st: Status, v: Volume) {
    && i < |at.files| && st != Ok && st == ExpandStatus(at.view, at.files[i], at.used, v)
    && at.files[i].fileSize == Capacity(at.files[i], v)
    && now.files == at.files && now.used == at.used + Leaked(at.files[i], at.used, v)
    && |now.view| == |at.view| && forall b :: b in at.used && b < |at.view| ==> now.view[b] == at.view[b]
  }

  /** The blocks of file i, and those it can gain for sure, hold end bytes. */
  ghost predicate Covers(s: Snapshot, i: nat, end: nat, v: Volume) {
    && i < |s.files|
    && end <= (s.files[i].blockCount + Space(s.view, s.files[i], s.used, v)) * v.blockSize
  }

  /**
   * From moment a to moment b, file i has gained blocks that were free, and no other block is newly used; used blocks
   * that are not its own keep their bytes.
   */
  ghost predicate Took(a: Snapshot, b: Snapshot, i: nat) {
    && i < |a.files| && i < |b.files| && |b.view| == |a.view|
    && var own, own' := OwnedSet(a.view, a.files[i]), OwnedSet(b.view, b.files[i]);
       && own <= own' && own' - own !! a.used && b.used == a.used + (own' - own)
       && forall x :: x in a.used && x !in own && x < |a.view| ==> b.view[x] == a.view[x]
  }

  lemma TookSelf(a: Snapshot, i: nat)
    requires i < |a.files|
    ensures Took(a, a, i)
  {
  }

  lemma TookTwice(a: Snapshot, b: Snapshot, c: Snapshot, i: nat)
    requires Took(a, b, i) && Took(b, c, i)
    ensures Took(a, c, i)
  {
    hide OwnedSet;
  }

  /** A block of file i is rewritten, which leaves the file the blocks it has. */
  lemma TookInPlace(a: Snapshot, b: Snapshot, i: nat, x: nat)
    requires SameShape(a, b, i) && x < |a.view| == |b.view| && b.view == a.view[x := b.view[x]]
    requires x in OwnedSet(a.view, a.files[i])
    ensures Took(a, b, i)
  {
    assert Owned(b.view, b.files[i]) == Owned(a.view, a.files[i]);
  }

  /** Only the size of file i changes. */
  lemma TookSize(a: Snapshot, b: Snapshot, i: nat)
    requires i < |a.files| && i < |b.files| && b.view == a.view && b.used == a.used
    requires b.files[i] == a.files[i].(fileSize := b.files[i].fileSize)
    ensures Took(a, b, i)
  {
    assert Owned(b.view, b.files[i]) == Owned(a.view, a.files[i]);
  }

  /** An expansion takes the blocks that file i gains. */
  lemma TookExpanding(a: Snapshot, b: Snapshot, i: nat, newBlock: nat, v: Volume)
    requires i < |b.files| && Owns(a.view, a.files, a.used, v) && i < |a.files|
    requires Extends(a.view, b.view, a.files[i], b.files[i], newBlock, a.used, v)
    requires OwnedSet(a.view, a.files[i]) <= OwnedSet(b.view, b.files[i])
    requires b.used == a.used + OwnedSet(b.view, b.files[i])
    requires OwnedSet(b.view, b.files[i]) !! a.used - OwnedSet(a.view, a.files[i])
    ensures Took(a, b, i)
  {
    hide FileBlocks, Shaped, Depth, Indirect, Flat;
    DataBlocks(a.view, a.files, i, a.used, v);
    assert OwnedSet(a.view, a.files[i]) <= a.used;
    hide OwnedSet, Owns;
  }

  /** The blocks that file i has or can gain for sure have not become fewer. */
  ghost predicate NoFewer(a: Snapshot, b: Snapshot, i: nat, v: Volume) {
    && Took(a, b, i)
    && a.files[i].blockCount + Space(a.view, a.files[i], a.used, v) <=
       b.files[i].blockCount + Space(b.view, b.files[i], b.used, v)
  }

  lemma NoFewerSelf(a: Snapshot, i: nat, v: Volume)
    requires i < |a.files|
    ensures NoFewer(a, a, i, v)
  {
    TookSelf(a, i);
  }

  lemma NoFewerTwice(a: Snapshot, b: Snapshot, c: Snapshot, i: nat, v: Volume)
    requires NoFewer(a, b, i, v) && NoFewer(b, c, i, v)
    ensures NoFewer(a, c, i, v)
  {
    hide Space, OwnedSet;
    TookTwice(a, b, c, i);
  }

  lemma SameShapeNoFewer(a: Snapshot, b: Snapshot, i: nat, x: nat, v: Volume)
    requires SameShape(a, b, i) && x < |a.view| == |b.view| && b.view == a.view[x := b.view[x]]
    requires x in OwnedSet(a.view, a.files[i])
    ensures NoFewer(a, b, i, v)
  {
    TookInPlace(a, b, i, x);
    hide Took;
  }

  /** A write that the blocks of the file and those it can gain for sure have room for does not stop. */
  lemma NeverStopped(a: Snapshot, at: Snapshot, now: Snapshot, i: nat, st: Status, v: Volume, end: nat)
    requires NoFewer(a, at, i, v) && StoppedAt(at, now, i, st, v) && at.files[i].fileSize < end
    ensures !Covers(a, i, end, v)
  {
    hide Space, ExpandStatus, Took, Leaked;
    if Space(at.view, at.files[i], at.used, v) > 0 {
      SpaceExpands(at.view, at.files[i], at.used, v);
    } else if Covers(a, i, end, v) {
      MulMono(a.files[i].blockCount + Space(a.view, a.files[i], a.used, v), at.files[i].blockCount, v.blockSize);
    }
  }

  /** A write that needs one block more at most stops exactly when it gets stuck at once. */
  lemma OneBlockMore(a: Snapshot, at: Snapshot, now: Snapshot, i: nat, st: Status, v: Volume, end: nat)
    requires i < |a.files| && StoppedAt(at, now, i, st, v)
    requires Capacity(a.files[i], v) < Capacity(at.files[i], v) < end
    ensures Capacity(a.files[i], v) + v.blockSize < end
  {
    if at.files[i].blockCount <= a.files[i].blockCount {
      MulMono(at.files[i].blockCount, a.files[i].blockCount, v.blockSize);
    } else {
      MulMono(a.files[i].blockCount + 1, at.files[i].blockCount, v.blockSize);
      NextBlock(a.files[i].blockCount, v.blockSize);
    }
  }

  ghost predicate Begun(a: Snapshot, i: nat, v: Volume)
    requires i < |a.files|
  {
    ExpandStatus(a.view, a.files[i], a.used, v) == Ok
  }

  /**
   * How far a write that began at moment a has come at byte pos, at moment b: either it has kept to
   * the blocks of the file, or it has added one, which left the inode dirty.
   */
  ghost predicate Progress(a: Snapshot, dirty: bool, b: Snapshot, dirty': bool, i: nat, pos: nat, v: Volume) {
    && i < |a.files| && i < |b.files|
    && ((&& SameShape(a, b, i) && dirty' == dirty
         && b.files[i].fileSize == if pos <= a.files[i].fileSize then a.files[i].fileSize else pos)
        || (dirty' && Begun(a, i, v) && pos > Capacity(a.files[i], v)))
  }

  /** A write has failed for want of a block: at once behind the blocks of the file, or after it has gained one. */
  ghost predicate Halted(a: Snapshot, dirty: bool, n: Inode, dirty': bool, i: nat, st: Status, pos: nat, v: Volume) {
    && i < |a.files|
    && (|| (dirty' && Begun(a, i, v) && pos > Capacity(a.files[i], v))
        || (&& dirty' == dirty && pos == Capacity(a.files[i], v) && !Begun(a, i, v)
            && st == ExpandStatus(a.view, a.files[i], a.used, v) && n == a.files[i].(fileSize := pos)))
  }

  /**
   * How a write of data at byte p of file i, from moment a to moment b, ends. It writes all of it, or stops at a
   * moment at when the file is full and can get no block. It does not stop when the blocks of the file, and those it
   * can gain for sure, have room; and when it needs one block at most, it stops exactly when that cannot be had.
   */
  ghost predicate Ended(a: Snapshot, b: Snapshot, at: Snapshot, i: nat, p: nat, data: Block, st: Status, written: nat,
                        v: Volume) {
    && i < |a.files| && i < |b.files| && written <= |data| && (st == Ok <==> written == |data|)
    && Wrote(a, b, i, p, data[..written])
    && (st != Ok ==>
          && Wrote(a, at, i, p, data[..written]) && StoppedAt(at, b, i, st, v) && at.files[i].fileSize == p + written
          && a.files[i].fileSize < p + |data|)
    && Took(a, if st == Ok then b else at, i)
    && (Covers(a, i, p + |data|, v) ==> st == Ok)
    && (p + |data| <= Capacity(a.files[i], v) ==>
          st == Ok && b.used == a.used && b.files[i] == Reaching(a.files[i], p + |data|))
    && (Stuck(a, i, p + |data|, v) ==>
          && st == ExpandStatus(a.view, a.files[i], a.used, v)
          && b.files[i] == a.files[i].(fileSize := Capacity(a.files[i], v)))
    && (p + |data| <= Capacity(a.files[i], v) + v.blockSize ==> (st == Ok <==> !Stuck(a, i, p + |data|, v)))
  }

  /** File i took the blocks it needed, up to a moment when it could not get another one if it failed. */
  ghost predicate Taking(a: Snapshot, b: Snapshot, i: nat, st: Status, v: Volume) {
    if st == Ok then Took(a, b, i) else exists at :: Took(a, at, i) && StoppedAt(at, b, i, st, v)
  }

  lemma EndedTaking(a: Snapshot, b: Snapshot, at: Snapshot, i: nat, p: nat, data: Block, st: Status, written: nat,
                    v: Volume)
    requires Ended(a, b, at, i, p, data, st, written, v)
    ensures Taking(a, b, i, st, v)
  {
    hide Took, StoppedAt;
  }

  /** The mark of the inode after a write that may have stopped: set if the file gained a block. */
  ghost predicate Marking(a: Snapshot, dirty: bool, dirty': bool, i: nat, end: nat, st: Status, v: Volume) {
    if st == Ok then !Stuck(a, i, end, v) else dirty' == (dirty || !Stuck(a, i, end, v))
  }

  /** How far a write of data at byte p of file i, which began at moment a, has come at moment b. */
  ghost predicate Writing(a: Snapshot, dirty: bool, b: Snapshot, dirty': bool, i: nat, p: nat, data: Block,
                          written: nat,
                          v: Volume) {
    && i < |a.files| && i < |b.files| && written <= |data| && a.files[i].fileSize <= Capacity(a.files[i], v)
    && Wrote(a, b, i, p, data[..written]) && NoFewer(a, b, i, v)
    && Progress(a, dirty, b, dirty', i, p + written, v)
    && p + written <= b.files[i].fileSize && a.files[i].fileSize <= b.files[i].fileSize
  }

  lemma ProgressStarts(a: Snapshot, dirty: bool, i: nat, pos: nat, v: Volume)
    requires i < |a.files| && pos <= a.files[i].fileSize
    ensures Progress(a, dirty, a, dirty, i, pos, v)
  {
  }

  lemma WroteNothing(a: Snapshot, i: nat, pos: nat)
    requires i < |a.files| && pos <= a.files[i].fileSize == |Bytes(a, i)|
    ensures Wrote(a, a, i, pos, [])
  {
    OverwriteNothing(Bytes(a, i), pos);
  }

  lemma WritingStarts(a: Snapshot, dirty: bool, i: nat, p: nat, data: Block, v: Volume)
    requires i < |a.files| && p <= a.files[i].fileSize == |Bytes(a, i)|
    requires a.files[i].fileSize <= Capacity(a.files[i], v)
    ensures Writing(a, dirty, a, dirty, i, p, data, 0, v)
  {
    hide Wrote, NoFewer, Bytes, Capacity;
    assert data[..0] == [];
    WroteNothing(a, i, p);
    NoFewerSelf(a, i, v);
    ProgressStarts(a, dirty, i, p, v);
  }

  /** A write that has come to its end did not get stuck. */
  lemma EndsWell(a: Snapshot, dirty: bool, b: Snapshot, dirty': bool, at: Snapshot, i: nat, p: nat, data: Block,
                 v: Volume)
    requires Writing(a, dirty, b, dirty', i, p, data, |data|, v) && b.files[i].fileSize <= Capacity(b.files[i], v)
    ensures Ended(a, b, at, i, p, data, Ok, |data|, v) && !Stuck(a, i, p + |data|, v)
  {
    hide Wrote, Covers, ExpandStatus, Took, Space, Indirect;
    assert data[..|data|] == data;
  }

  lemma EndsStopped(a: Snapshot, dirty: bool, b: Snapshot, dirty': bool, at: Snapshot, i: nat, p: nat, data: Block,
                    st: Status, written: nat, v: Volume)
    requires i < |b.files| && written < |data| && Wrote(a, b, i, p, data[..written])
    requires i < |a.files| && a.files[i].fileSize <= Capacity(a.files[i], v)
    requires Wrote(a, at, i, p, data[..written]) && StoppedAt(at, b, i, st, v) && at.files[i].fileSize == p + written
    requires NoFewer(a, at, i, v) && Halted(a, dirty, b.files[i], dirty', i, st, p + written, v)
    ensures Ended(a, b, at, i, p, data, st, written, v)
    ensures dirty' == (dirty || !Stuck(a, i, p + |data|, v))
  {
    hide Wrote, Covers, Capacity, ExpandStatus, Took, Space;
    NeverStopped(a, at, b, i, st, v, p + |data|);
    if Capacity(a.files[i], v) < at.files[i].fileSize {
      OneBlockMore(a, at, b, i, st, v, p + |data|);
    }
  }

  /** A chunk inside the blocks of the file. */
  lemma ProgressInside(a: Snapshot, dirty: bool, b: Snapshot, dirty': bool, c: Snapshot, i: nat, pos: nat, chunk: nat,
                       v: Volume)
    requires Progress(a, dirty, b, dirty', i, pos, v) && SameShape(b, c, i) && pos <= b.files[i].fileSize
    requires c.files[i].fileSize == if pos + chunk <= b.files[i].fileSize then b.files[i].fileSize else pos + chunk
    ensures Progress(a, dirty, c, dirty', i, pos + chunk, v)
  {
    hide ExpandStatus, Indirect;
  }

  /** The first byte behind the blocks of the file. */
  lemma ProgressAtEnd(a: Snapshot, dirty: bool, b: Snapshot, dirty': bool, i: nat, pos: nat, v: Volume)
    requires Progress(a, dirty, b, dirty', i, pos, v)
    requires pos == Capacity(b.files[i], v)
    ensures || (dirty' && Begun(a, i, v) && pos > Capacity(a.files[i], v))
            || (&& dirty' == dirty && pos == Capacity(a.files[i], v)
                && ExpandStatus(b.view, b.files[i], b.used, v) == ExpandStatus(a.view, a.files[i], a.used, v)
                && b.files[i] == a.files[i].(fileSize := b.files[i].fileSize))
  {
    hide ExpandStatus;
    if SameShape(a, b, i) {
      SameStatus(a, b, i, v);
    }
  }

  /** The first block behind the blocks of a file starts where they end. */
  lemma AtCapacity(n: Inode, v: Volume, pos: nat, q: nat, off: nat)
    requires Locates(pos, q, off, v.blockSize) && q == n.blockCount && off == 0
    ensures pos == Capacity(n, v)
  {
  }

  lemma WithinCapacity(view: seq<Block>, files: seq<Inode>, i: nat, used: set<nat>, v: Volume)
    requires Owns(view, files, used, v) && i < |files|
    ensures files[i].fileSize <= Capacity(files[i], v)
  {
    hide FileBlocks, Owned, OwnedSet, Reserved, Span;
    assert Sound(view, files[i], v);
  }

  lemma WroteTwice(a: Snapshot, b: Snapshot, c: Snapshot, i: nat, pos: nat, d: Block, e: Block)
    requires Wrote(a, b, i, pos, d) && Wrote(b, c, i, pos + |d|, e)
    ensures Wrote(a, c, i, pos, d + e) && pos + |d| + |e| <= c.files[i].fileSize
    ensures i < |a.files| && i < |c.files| && a.files[i].fileSize <= c.files[i].fileSize
  {
    OverwriteTwice(Bytes(a, i), pos, d, e);
    SameOthersTwice(a.view, a.files, b.view, b.files, c.view, c.files, i);
  }

  /** What a file owns, level by level. */
  lemma OwnedParts(view: seq<Block>, n: Inode)
    requires n.indirect < |view|
    ensures OwnedSet(view, n) ==
              Elems(Flat(n.ranges)) + if n.indirect == 0 then {}
                  else Elems(Flat(Decode(view[n.indirect]))) + {n.indirect}
  {
    var a, b := Flat(n.ranges), Flat(Indirect(view, n));
    assert forall x :: x in Owned(view, n) <==> x in a || x in b || (n.indirect != 0 && x == n.indirect);
  }

  /** Rewriting the blocks of the volume itself changes no file. */
  lemma ReservedRewritten(view: seq<Block>, view': seq<Block>, files: seq<Inode>, used: set<nat>, v: Volume)
    requires Owns(view, files, used, v) && |view| == |view'|
    requires forall b :: 0 <= b < |view| && b !in Reserved(v) ==> view'[b] == view[b]
    ensures Owns(view', files, used, v)
    ensures forall j :: 0 <= j < |files| ==> Content(view', files[j]) == Content(view, files[j])
  {
    hide Sound, Owned, OwnedSet, Content, FileBlocks, Reserved, Span;
    forall j | 0 <= j < |files|
      ensures OwnedSet(view', files[j]) == OwnedSet(view, files[j])
      ensures Sound(view', files[j], v) && Content(view', files[j]) == Content(view, files[j])
    {
      Untouched(view, view', files[j], v);
    }
  }
}
