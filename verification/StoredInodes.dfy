/** The superblock and the inodes as bytes. */
module StoredInodes {
  import opened Common
  import opened RangeCodec
  import opened FileLayout
  import opened Superblocks
  import opened DirEntries

  const INODE_SIZE: nat := 64

  // Where the superblock keeps the inode of the file of inodes and that of the root directory.
  const DB_AT: nat := 0x30
  const ROOT_AT: nat := 0x70

  /** The numbers of an inode fit their fields. */
  ghost predicate Storable(n: Inode) {
    && n.fileSize < U32 && n.blockCount < U32 && n.indirect < U32 && n.double < U32 && |n.ranges| == RANGES_IN_INODE
    && forall i :: 0 <= i < |n.ranges| ==> n.ranges[i].first < U32 && n.ranges[i].count <= 0xFFFF
  }

  /** The stored form of an inode; its flags and its time are left zero. */
  function InodeBytes(n: Inode): (s: Block)
    requires |n.ranges| == RANGES_IN_INODE
    ensures |s| == INODE_SIZE
  {
    Zeros(4) + Bytes32(n.fileSize) + Bytes32(n.blockCount) + Zeros(8) + Encode(Zeros(36), n.ranges) +
        Bytes32(n.indirect) + Bytes32(n.double)
  }

  function InodeOf(s: Block): (n: Inode)
    requires |s| == INODE_SIZE
    ensures |n.ranges| == RANGES_IN_INODE
  {
    Inode(Num32(s[4..8]), Num32(s[8..12]), Decode(s[20..56]), Num32(s[56..60]), Num32(s[60..64]))
  }

  lemma InodeRoundTrip(n: Inode)
    requires Storable(n)
    ensures InodeOf(InodeBytes(n)) == n
  {
    hide Num32, Bytes32, Encode, Decode;
    var s := InodeBytes(n);
    RoundTrip32(n.fileSize);
    RoundTrip32(n.blockCount);
    RoundTrip32(n.indirect);
    RoundTrip32(n.double);
    DecodeEncode(Zeros(36), n.ranges);
    assert s[4..8] == Bytes32(n.fileSize) && s[8..12] == Bytes32(n.blockCount);
    assert s[20..56] == Encode(Zeros(36), n.ranges);
    assert s[56..60] == Bytes32(n.indirect) && s[60..64] == Bytes32(n.double);
  }

  /**
   * Where a stored inode has its numbers: the size, the blocks, the ranges and the two indirect blocks; the rest is
   * zero.
   */
  lemma InodeLayout(n: Inode)
    requires Storable(n)
    ensures var s := InodeBytes(n);
            && Little(s[4..8]) == n.fileSize && Little(s[8..12]) == n.blockCount
            && (forall i: nat :: i < RANGES_IN_INODE ==>
                  s[20 + RANGE_SIZE * i..20 + RANGE_SIZE * i + RANGE_SIZE] == RangeBytes(n.ranges[i]))
            && Little(s[56..60]) == n.indirect && Little(s[60..64]) == n.double
            && s[..4] == Zeros(4) && s[12..20] == Zeros(8)
  {
    hide Bytes32, Little, Encode, RangeBytes;
    var s, e := InodeBytes(n), Encode(Zeros(36), n.ranges);
    LittleEndian(n.fileSize);
    LittleEndian(n.blockCount);
    LittleEndian(n.indirect);
    LittleEndian(n.double);
    assert s[4..8] == Bytes32(n.fileSize) && s[8..12] == Bytes32(n.blockCount);
    assert s[56..60] == Bytes32(n.indirect) && s[60..64] == Bytes32(n.double);
    assert s[20..56] == e;
    forall i: nat | i < RANGES_IN_INODE
      ensures s[20 + RANGE_SIZE * i..20 + RANGE_SIZE * i + RANGE_SIZE] == RangeBytes(n.ranges[i])
    {
      EncodeLayout(Zeros(36), n.ranges, i);
      assert s[20..56][RANGE_SIZE * i..RANGE_SIZE * i + RANGE_SIZE] ==
             s[20 + RANGE_SIZE * i..20 + RANGE_SIZE * i + RANGE_SIZE];
    }
  }

  /** The magic number is that of this file system. */
  predicate HasMagic(sb: Block)
    requires |sb| == SUPERBLOCK_SIZE
  {
    sb[..4] == [83, 70, 83, 49]
  }

  /** The magic number, and the sizes of entries and inodes, are those of this file system. */
  predicate Recognised(sb: Block)
    requires |sb| == SUPERBLOCK_SIZE
  {
    HasMagic(sb) && Num16(sb[4..6]) == ENTRY_SIZE && Num16(sb[6..8]) == INODE_SIZE
  }

  function LayoutOf(sb: Block): (v: Volume)
    requires |sb| == SUPERBLOCK_SIZE
  {
    Volume(Num32(sb[24..28]), Num32(sb[28..32]), Num32(sb[32..36]), Num32(sb[36..40]))
  }

  /** The inode that the superblock keeps at some place. */
  function InodeAt(sb: Block, at: nat): (n: Inode)
    requires |sb| == SUPERBLOCK_SIZE && at + INODE_SIZE <= |sb|
  {
    InodeOf(sb[at..at + INODE_SIZE])
  }

  /** A splice puts the bytes at their place and leaves the bytes before and behind them. */
  lemma SplicedParts(s: Block, off: nat, buf: Block, i: nat, j: nat)
    requires off + |buf| <= |s| && i <= j <= |s| && (j <= off || off + |buf| <= i)
    ensures var r := Splice(s, off, buf); r[off..off + |buf|] == buf && r[i..j] == s[i..j]
  {
    var r := Splice(s, off, buf);
    assert forall k :: 0 <= k < |s| && !(off <= k < off + |buf|) ==> r[k] == s[k];
  }

  /** Putting one of the two inodes into the superblock leaves the other and the layout. */
  lemma InodePut(sb: Block, at: nat, n: Inode)
    requires |sb| == SUPERBLOCK_SIZE && (at == DB_AT || at == ROOT_AT) && Storable(n)
    ensures var sb' := Splice(sb, at, InodeBytes(n)); var other := if at == DB_AT then ROOT_AT else DB_AT;
            && InodeAt(sb', at) == n && InodeAt(sb', other) == InodeAt(sb, other)
            && (Recognised(sb') <==> Recognised(sb)) && LayoutOf(sb') == LayoutOf(sb)
  {
    hide InodeOf, InodeBytes, Num32, Num16, Splice;
    var sb', other := Splice(sb, at, InodeBytes(n)), if at == DB_AT then ROOT_AT else DB_AT;
    InodeRoundTrip(n);
    SplicedParts(sb, at, InodeBytes(n), other, other + INODE_SIZE);
    SplicedParts(sb, at, InodeBytes(n), 0, 4);
    SplicedParts(sb, at, InodeBytes(n), 4, 6);
    SplicedParts(sb, at, InodeBytes(n), 6, 8);
    SplicedParts(sb, at, InodeBytes(n), 24, 28);
    SplicedParts(sb, at, InodeBytes(n), 28, 32);
    SplicedParts(sb, at, InodeBytes(n), 32, 36);
    SplicedParts(sb, at, InodeBytes(n), 36, 40);
  }

  function SectorsPerBlock(blockSize: nat, sectorSize: nat): (n: nat)
    requires 0 < sectorSize
    ensures n <= blockSize && n * sectorSize <= blockSize < n * sectorSize + sectorSize
  {
    Split(blockSize, sectorSize);
    MulMono(1, sectorSize, blockSize / sectorSize);
    blockSize / sectorSize
  }

  /** The superblock of a new volume. */
  function NewSuperblock(sectorSize: nat, v: Volume, name: Block): (sb: Block)
    requires 0 < sectorSize && |name| == 32
    ensures |sb| == SUPERBLOCK_SIZE
  {
    [83, 70, 83, 49] + Bytes16(ENTRY_SIZE) + Bytes16(INODE_SIZE) + Zeros(8) +
    Bytes32(sectorSize) + Bytes32(SectorsPerBlock(v.blockSize, sectorSize)) + Bytes32(v.blockSize) + Bytes32(v.blocks) +
    Bytes32(v.bitmapFirst) + Bytes32(v.bitmapCount) + Zeros(8) +
    [3] + Zeros(63) + [5] + Zeros(63) + name + Zeros(304)
  }

  /** The parts of the superblock of a new volume. */
  lemma SuperblockParts(sectorSize: nat, v: Volume, name: Block)
    requires 0 < sectorSize && |name| == 32
    ensures var sb := NewSuperblock(sectorSize, v, name);
            && sb[..4] == [0x53, 0x46, 0x53, 0x31] && sb[4..6] == Bytes16(ENTRY_SIZE) && sb[6..8] == Bytes16(INODE_SIZE)
            && sb[0x8..0x10] == Zeros(8) && sb[0x10..0x14] == Bytes32(sectorSize)
            && sb[0x14..0x18] == Bytes32(SectorsPerBlock(v.blockSize, sectorSize))
            && sb[0x18..0x1C] == Bytes32(v.blockSize)
            && sb[0x1C..0x20] == Bytes32(v.blocks) && sb[0x20..0x24] == Bytes32(v.bitmapFirst)
            && sb[0x24..0x28] == Bytes32(v.bitmapCount) && sb[0x28..0x30] == Zeros(8)
            && sb[0x30..0x70] == [0x3] + Zeros(63) && sb[0x70..0xB0] == [0x5] + Zeros(63) && sb[0xB0..0xD0] == name
            && sb[0xD0..] == Zeros(304)
  {
    hide Bytes32, Bytes16, SectorsPerBlock;
  }

  /** Where the superblock of a new volume has its numbers. */
  lemma SuperblockLayout(sectorSize: nat, v: Volume, name: Block)
    requires 0 < sectorSize < U32 && |name| == 32 && v.blockSize < U32 && v.blocks < U32 && v.bitmapFirst < U32
    requires v.bitmapCount < U32
    ensures var sb := NewSuperblock(sectorSize, v, name);
            && Little(sb[4..6]) == ENTRY_SIZE && Little(sb[6..8]) == INODE_SIZE
            && Little(sb[0x10..0x14]) == sectorSize
            && Little(sb[0x14..0x18]) == SectorsPerBlock(v.blockSize, sectorSize)
            && Little(sb[0x18..0x1C]) == v.blockSize && Little(sb[0x1C..0x20]) == v.blocks
            && Little(sb[0x20..0x24]) == v.bitmapFirst && Little(sb[0x24..0x28]) == v.bitmapCount
  {
    hide Bytes32, Bytes16, Little, NewSuperblock, SectorsPerBlock;
    SuperblockParts(sectorSize, v, name);
    LittleEndian(ENTRY_SIZE);
    LittleEndian(sectorSize);
    LittleEndian(SectorsPerBlock(v.blockSize, sectorSize));
    LittleEndian(v.blockSize);
    LittleEndian(v.blocks);
    LittleEndian(v.bitmapFirst);
    LittleEndian(v.bitmapCount);
  }

  lemma EmptyInodeReads(flags: Byte)
    ensures InodeOf([flags] + Zeros(63)) == EMPTY_INODE
  {
    hide Decode;
    var s := [flags] + Zeros(63);
    assert Num(0) == 0;
    assert s[4..8] == Zeros(4) && s[8..12] == Zeros(4) && s[56..60] == Zeros(4) && s[60..64] == Zeros(4)
        && s[20..56] == Zeros(36);
    DecodeZeros(36);
    assert Decode(Zeros(36)) == EMPTY_INODE.ranges;
  }

  lemma NewSuperblockReads(sectorSize: nat, v: Volume, name: Block)
    requires 0 < sectorSize && |name| == 32 && v.blockSize < U32 && v.blocks < U32 && v.bitmapFirst < U32
    requires v.bitmapCount < U32
    ensures var sb := NewSuperblock(sectorSize, v, name);
            && Recognised(sb) && LayoutOf(sb) == v && InodeAt(sb, DB_AT) == EMPTY_INODE
            && InodeAt(sb, ROOT_AT) == EMPTY_INODE
  {
    hide Num32, Num16, Bytes32, Bytes16, InodeOf;
    var sb := NewSuperblock(sectorSize, v, name);
    RoundTrip16(ENTRY_SIZE);
    RoundTrip16(INODE_SIZE);
    RoundTrip32(v.blockSize);
    RoundTrip32(v.blocks);
    RoundTrip32(v.bitmapFirst);
    RoundTrip32(v.bitmapCount);
    assert sb[..4] == [83, 70, 83, 49] && sb[4..6] == Bytes16(ENTRY_SIZE) && sb[6..8] == Bytes16(INODE_SIZE);
    assert sb[24..28] == Bytes32(v.blockSize) && sb[28..32] == Bytes32(v.blocks);
    assert sb[32..36] == Bytes32(v.bitmapFirst) && sb[36..40] == Bytes32(v.bitmapCount);
    assert sb[DB_AT..DB_AT + INODE_SIZE] == [3] + Zeros(63) && sb[ROOT_AT..ROOT_AT + INODE_SIZE] == [5] + Zeros(63);
    EmptyInodeReads(3);
    EmptyInodeReads(5);
  }
}
