/** What the inodes of a volume own, and the bytes of a file, over a plain array of blocks. */
module FileLayout {
  import opened Common
  import opened Ranges
  import opened RangeCodec

  const RANGES_IN_INODE: nat := 6

  datatype Inode = Inode(fileSize: nat, blockCount: nat, ranges: seq<Range>, indirect: nat, double: nat)

  /** A file without bytes and blocks. */
  const EMPTY_INODE := Inode(0, 0, [EMPTY, EMPTY, EMPTY, EMPTY, EMPTY, EMPTY], 0, 0)

  /** The layout of a volume: block 0 is the superblock, then comes the bitmap. */
  datatype Volume = Volume(blockSize: nat, blocks: nat, bitmapFirst: nat, bitmapCount: nat)

  /** The numbers from first on, count of them. */
  ghost function Span(first: nat, count: nat): (r: set<nat>)
    ensures forall b :: b in r <==> first <= b < first + count
  {
    if count == 0 then {} else Span(first, count - 1) + {first + count - 1}
  }

  /** The blocks that belong to the volume itself. */
  ghost function Reserved(v: Volume): (r: set<nat>) {
    {0} + Span(v.bitmapFirst, v.bitmapCount)
  }

  /** The ranges in the indirect block of an inode. */
  ghost function Indirect(view: seq<Block>, n: Inode): (rs: seq<Range>) {
    if 0 < n.indirect < |view| then Decode(view[n.indirect]) else []
  }

  /** The data blocks of a file, in file order. */
  ghost function FileBlocks(view: seq<Block>, n: Inode): (bs: seq<nat>) {
    Flat(n.ranges) + Flat(Indirect(view, n))
  }

  /** All blocks that belong to an inode. */
  ghost function Owned(view: seq<Block>, n: Inode): (bs: seq<nat>) {
    FileBlocks(view, n) + if n.indirect == 0 then [] else [n.indirect]
  }

  ghost function OwnedSet(view: seq<Block>, n: Inode): (bs: set<nat>) {
    Elems(Owned(view, n))
  }

  /** The bytes of a list of blocks. */
  ghost function Joined(view: seq<Block>, blocks: seq<nat>): (bytes: Block) {
    if blocks == [] then []
    else (if blocks[0] < |view| then view[blocks[0]] else []) + Joined(view, blocks[1..])
  }

  /** The bytes of a file. */
  ghost function Content(view: seq<Block>, n: Inode): (bytes: Block) {
    var all := Joined(view, FileBlocks(view, n));
    if n.fileSize <= |all| then all[..n.fileSize] else all
  }

  /** An inode is consistent with the blocks it points to. */
  ghost predicate Sound(view: seq<Block>, n: Inode, v: Volume) {
    && |n.ranges| == RANGES_IN_INODE && Shaped(n.ranges)
    && n.double == 0
    && (n.indirect != 0 ==> n.indirect < |view| && Depth(n.ranges) == RANGES_IN_INODE && Shaped(Indirect(view, n)))
    && n.blockCount == |FileBlocks(view, n)|
    && n.fileSize <= n.blockCount * v.blockSize
    && Distinct(Owned(view, n))
  }

  /** Every block has one owner at most, and every owned block is marked used. */
  ghost predicate Owns(view: seq<Block>, files: seq<Inode>, used: set<nat>, v: Volume) {
    && Reserved(v) <= used <= Span(0, v.blocks) && v.blocks <= |view|
    && (forall i :: 0 <= i < |files| ==> Sound(view, files[i], v))
    && (forall i :: 0 <= i < |files| ==> OwnedSet(view, files[i]) <= used - Reserved(v))
    && (forall i, j :: 0 <= i < j < |files| ==> OwnedSet(view, files[i]) !! OwnedSet(view, files[j]))
  }

  lemma {:induction false} JoinedFrame(view: seq<Block>, view': seq<Block>, blocks: seq<nat>)
    requires |view| == |view'| && forall b :: b in blocks && b < |view| ==> view[b] == view'[b]
    ensures Joined(view, blocks) == Joined(view', blocks)
  {
    if blocks != [] {
      JoinedFrame(view, view', blocks[1..]);
    }
  }

  /** An inode whose blocks are untouched is as it was. */
  lemma Untouched(view: seq<Block>, view': seq<Block>, n: Inode, v: Volume)
    requires Sound(view, n, v) && |view| == |view'|
    requires forall b :: b in OwnedSet(view, n) && b < |view| ==> view'[b] == view[b]
    ensures Sound(view', n, v) && Owned(view', n) == Owned(view, n)
    ensures OwnedSet(view', n) == OwnedSet(view, n)
    ensures FileBlocks(view', n) == FileBlocks(view, n) && Content(view', n) == Content(view, n)
  {
    var o := Owned(view, n);
    if n.indirect != 0 {
      assert o[|o| - 1] == n.indirect;
      assert n.indirect in OwnedSet(view, n);
    }
    forall b | b in FileBlocks(view, n)
      ensures b in OwnedSet(view, n)
    {
      assert b in o;
    }
    JoinedFrame(view, view', FileBlocks(view, n));
  }

  /**
   * The step that keeps ownership: file i may only touch blocks that were its own or free,
   * and may end up owning only such blocks; then every other file is left alone.
   */
  lemma OwnershipKept(view: seq<Block>, view': seq<Block>, files: seq<Inode>, i: nat, n: Inode,
                      used: set<nat>, used': set<nat>, v: Volume)
    requires Owns(view, files, used, v) && i < |files| && |view| == |view'|
    requires forall b :: b in used - OwnedSet(view, files[i]) && b < |view| ==> view'[b] == view[b]
    requires Sound(view', n, v)
    requires used - OwnedSet(view, files[i]) <= used' <= Span(0, v.blocks)
    requires OwnedSet(view', n) <= used'
    requires OwnedSet(view', n) !! used - OwnedSet(view, files[i])
    ensures Owns(view', files[i := n], used', v)
    ensures forall j :: 0 <= j < |files| && j != i ==>
              && Owned(view', files[j]) == Owned(view, files[j])
              && Content(view', files[j]) == Content(view, files[j])
  {
    hide Sound, Owned, OwnedSet, Content, FileBlocks, Reserved, Span;
    var mine := OwnedSet(view, files[i]);
    forall j | 0 <= j < |files| && j != i
      ensures OwnedSet(view', files[j]) == OwnedSet(view, files[j]) <= used - mine
      ensures Sound(view', files[j], v) && Owned(view', files[j]) == Owned(view, files[j])
      ensures Content(view', files[j]) == Content(view, files[j])
    {
      assert OwnedSet(view, files[j]) !! mine;
      Untouched(view, view', files[j], v);
    }
  }
}
