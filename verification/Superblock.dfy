/** The layout of a new volume. */
module Superblocks {
  import opened Common
  import opened Bitmaps
  import opened FileLayout

  const KB: nat := 1024
  const MB: nat := 1024 * KB

  /** The size of the stored superblock. */
  const SUPERBLOCK_SIZE: nat := 512

  /** The block size that suits a capacity, before it is fitted to the sectors. */
  function SuitedBlockSize(capacity: nat): (size: nat)
    ensures 512 <= size <= 4096
  {
    if capacity <= 2 * MB then 512
    else if capacity <= 8 * MB then 1024
    else if capacity <= 32 * MB then 2048
    else 4096
  }

  function AutoDetermineBlockSize(sectorSize: nat, capacity: nat): (size: nat)
    requires 0 < sectorSize
  {
    var size := SuitedBlockSize(capacity);
    if size % sectorSize != 0 then size / sectorSize * sectorSize
    else if size < sectorSize then sectorSize
    else size
  }

  /**
   * The block size that is chosen is a whole number of sectors, and it is usable exactly when a
   * sector is no larger than the suited size: with larger sectors it is zero, where the source
   * goes on to divide by it.
   */
  lemma AutoBlockSizeUsable(sectorSize: nat, capacity: nat)
    requires 0 < sectorSize
    ensures var size := AutoDetermineBlockSize(sectorSize, capacity);
            && size % sectorSize == 0
            && (0 < size <==> sectorSize <= SuitedBlockSize(capacity))
            && (0 < size ==> sectorSize <= size <= 4096)
  {
    var size := SuitedBlockSize(capacity);
    var q, r := size / sectorSize, size % sectorSize;
    Split(size, sectorSize);
    DivMod(q, 0, sectorSize);
    if sectorSize <= size {
      assert 0 < q;
      MulMono(1, q, sectorSize);
    }
  }

  /** The size for each capacity: 512 bytes up to 2 MB, 1 KB up to 8 MB, 2 KB up to 32 MB, and 4 KB beyond. */
  lemma SuitedSizes(capacity: nat)
    ensures var size := SuitedBlockSize(capacity);
            && (size == 512 <==> capacity <= 0x20_0000) && (size == 1024 <==> 0x20_0000 < capacity <= 0x80_0000)
            && (size == 2048 <==> 0x80_0000 < capacity <= 0x200_0000) && (size == 4096 <==> 0x200_0000 < capacity)
  {
  }

  /** The sectors of 1024 bytes of a small device already exceed the suited size. */
  lemma AutoBlockSizeCanBeZero()
    ensures AutoDetermineBlockSize(1024, 64 * KB) == 0
  {
  }

  /** The block size a new volume gets, or none if the wish cannot be met. */
  function ChooseBlockSize(sectorSize: nat, sectorCount: nat, desired: nat): (size: Option<nat>)
    requires 0 < sectorSize
  {
    if desired > 0 then
      if desired < sectorSize || desired > 4096 || desired % sectorSize != 0 then None else Some(desired)
    else Some(AutoDetermineBlockSize(sectorSize, sectorSize * sectorCount))
  }

  /** The numbers in the superblock of a volume of the given size. */
  function PopulateSuperblock(sectorSize: nat, sectorCount: nat, blockSize: nat): (v: Volume)
    requires 0 < blockSize
  {
    var blocks := sectorSize * sectorCount / blockSize;
    Volume(blockSize, blocks, 1, CeilDiv(CeilDiv(blocks, 8), blockSize))
  }

  lemma OneBlockOfBits(capacity: nat)
    requires SuitedBlockSize(capacity) <= capacity <= 32 * MB
    ensures var size := SuitedBlockSize(capacity); CeilDiv(CeilDiv(capacity / size, 8), size) == 1
  {
    var size := SuitedBlockSize(capacity);
    var blocks := capacity / size;
    if size == 512 {
      assert 1 <= blocks <= 4096;
    } else if size == 1024 {
      assert 1 <= blocks <= 8192;
    } else {
      assert 1 <= blocks <= 16384;
    }
  }

  /** On a device of up to 32 MB, with sectors that divide the suited size, the bitmap takes one block. */
  lemma OneBlockBitmap(sectorSize: nat, sectorCount: nat)
    requires 0 < sectorSize && sectorSize * sectorCount <= 32 * MB
    requires SuitedBlockSize(sectorSize * sectorCount) % sectorSize == 0
    requires SuitedBlockSize(sectorSize * sectorCount) <= sectorSize * sectorCount
    ensures var size := AutoDetermineBlockSize(sectorSize, sectorSize * sectorCount);
            size == SuitedBlockSize(sectorSize * sectorCount)
                && PopulateSuperblock(sectorSize, sectorCount, size).bitmapCount == 1
  {
    var capacity := sectorSize * sectorCount;
    var size := SuitedBlockSize(capacity);
    assert sectorSize <= size by {
      if size < sectorSize {
        DivMod(0, size, sectorSize);
      }
    }
    OneBlockOfBits(capacity);
  }

  lemma QuotientBound(q: nat, r: nat, x: nat, y: nat)
    requires q * y + r == x + (y - 1) && r < y
    ensures x <= q * y && q <= x && (0 < x ==> 0 < q)
  {
    MulMono(1, y, x);
    assert (x + 1) * y == x * y + y;
    if q > x {
      MulMono(x + 1, q, y);
    }
  }

  lemma CeilDivCovers(x: nat, y: nat)
    requires 0 < y
    ensures x <= CeilDiv(x, y) * y && CeilDiv(x, y) <= x
    ensures 0 < x ==> 0 < CeilDiv(x, y)
  {
    Split(x + (y - 1), y);
    QuotientBound(CeilDiv(x, y), (x + (y - 1)) % y, x, y);
  }

  /** A product divides like its factors. */
  lemma BlocksOnDevice(sectorSize: nat, sectorCount: nat, per: nat)
    requires 0 < sectorSize && 0 < per
    ensures 0 < per * sectorSize && sectorSize * sectorCount / (per * sectorSize) == sectorCount / per
  {
    var q, r := sectorCount / per, sectorCount % per;
    Split(sectorCount, per);
    assert sectorSize * sectorCount == q * (per * sectorSize) + r * sectorSize;
    assert r * sectorSize < per * sectorSize;
    DivMod(q, r * sectorSize, per * sectorSize);
  }

  /**
   * The layout of a volume whose blocks are whole sectors: it has every whole block of the
   * device, its bitmap has a bit for each, and the superblock and the bitmap fit as soon as
   * there are two blocks.
   */
  lemma LayoutFits(sectorSize: nat, sectorCount: nat, blockSize: nat)
    requires 0 < sectorSize <= blockSize && blockSize % sectorSize == 0
    ensures var v := PopulateSuperblock(sectorSize, sectorCount, blockSize);
            && v.blocks == sectorCount / (blockSize / sectorSize) <= sectorCount
            && CeilDiv(v.blocks, 8) <= v.bitmapCount * v.blockSize
            && (1 + v.bitmapCount <= v.blocks <==> 2 <= v.blocks) && (v.blocks == 1 ==> v.bitmapCount == 1)
  {
    var per := blockSize / sectorSize;
    Split(blockSize, sectorSize);
    assert 0 < per;
    BlocksOnDevice(sectorSize, sectorCount, per);
    var v := PopulateSuperblock(sectorSize, sectorCount, blockSize);
    CeilDivCovers(CeilDiv(v.blocks, 8), blockSize);
    CeilDivCovers(v.blocks, 8);
    Split(sectorCount, per);
    MulMono(1, per, sectorCount / per);
  }
}
