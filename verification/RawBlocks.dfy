/** Whole blocks on the sector device: the raw loads and saves under the block cache. */
module RawBlocks {
  import opened Common
  import opened SectorDevices

  /** Block b of a device whose blocks take per sectors each. */
  ghost function BlockAt(sectors: seq<Block>, per: nat, b: nat): (r: Block) {
    if b * per + per <= |sectors| then Bytes(sectors, b * per, per) else []
  }

  ghost predicate Sized(blocks: seq<Block>, size: nat) {
    forall b :: 0 <= b < |blocks| ==> |blocks[b]| == size
  }

  /** disk is the sequence of whole blocks of per sectors. */
  ghost predicate Laid(sectors: seq<Block>, per: nat, disk: seq<Block>) {
    && 0 < per
    && |disk| == |sectors| / per
    && (forall b {:trigger BlockAt(sectors, per, b)} :: 0 <= b < |disk| ==> disk[b] == BlockAt(sectors, per, b))
  }

  lemma BlocksApart(b: nat, c: nat, per: nat)
    requires b != c
    ensures b * per + per <= c * per || c * per + per <= b * per
  {
    assert b < c ==> (b + 1) * per <= c * per;
    assert c < b ==> (c + 1) * per <= b * per;
  }

  lemma InRangeMeans(b: nat, per: nat, sectors: nat)
    requires 0 < per
    ensures b < sectors / per <==> b * per + per <= sectors
  {
    var q := sectors / per;
    assert q * per <= sectors < q * per + per;
    assert b + 1 <= q ==> (b + 1) * per <= q * per;
    assert q <= b ==> q * per <= b * per;
  }

  /** The loops over the sectors of a block take one whole sector at a time. */
  lemma SectorStep(i: nat, per: nat, size: nat)
    requires 0 < size && i <= per
    ensures i * size < per * size <==> i < per
    ensures i < per ==> i * size + size == (i + 1) * size <= per * size
  {
    assert i < per ==> (i + 1) * size <= per * size;
  }

  /** Rewriting the sectors of one block leaves the other blocks alone. */
  lemma OtherBlocksKept(before: seq<Block>, after: seq<Block>, per: nat, blockNo: nat)
    requires |before| == |after|
    requires forall k :: 0 <= k < |before| && !(blockNo * per <= k < blockNo * per + per) ==> after[k] == before[k]
    ensures forall b: nat :: b != blockNo ==> BlockAt(after, per, b) == BlockAt(before, per, b)
  {
    forall b: nat | b != blockNo
      ensures BlockAt(after, per, b) == BlockAt(before, per, b)
    {
      BlocksApart(b, blockNo, per);
      if b * per + per <= |before| {
        BytesFrame(before, after, b * per, per);
      }
    }
  }

  lemma BlockAtLength(sectors: seq<Block>, per: nat, b: nat, size: nat)
    requires 0 < per && b < |sectors| / per
    requires forall i :: 0 <= i < |sectors| ==> |sectors[i]| == size
    ensures |BlockAt(sectors, per, b)| == per * size
  {
    InRangeMeans(b, per, |sectors|);
    BytesLength(sectors, b * per, per, size);
  }

  /** The sectors determine the blocks. */
  lemma LaidUnique(sectors: seq<Block>, per: nat, disk: seq<Block>, disk': seq<Block>)
    requires Laid(sectors, per, disk) && Laid(sectors, per, disk')
    ensures disk == disk'
  {
    forall b | 0 <= b < |disk|
      ensures disk[b] == disk'[b]
    {
      assert disk[b] == BlockAt(sectors, per, b);
    }
  }

  class RawStore {
    const device: SectorDevice
    const blockSize: nat
    const perBlock: nat // sectors in a block
    ghost var disk: seq<Block> // the blocks on the device

    ghost predicate Valid()
      reads this, device
    {
      && device.Valid()
      && 0 < perBlock && blockSize == perBlock * device.sectorSize
      && Laid(device.sectors, perBlock, disk)
      && Sized(disk, blockSize)
    }

    constructor (device: SectorDevice, blockSize: nat)
      requires device.Valid() && 0 < blockSize && blockSize % device.sectorSize == 0
      ensures Valid() && this.device == device && this.blockSize == blockSize
      ensures perBlock == blockSize / device.sectorSize && |disk| == device.sectorCount / perBlock
    {
      this.device, this.blockSize := device, blockSize;
      var per := blockSize / device.sectorSize;
      perBlock := per;
      ghost var sectors := device.sectors;
      disk := seq(device.sectorCount / per, b requires 0 <= b => BlockAt(sectors, per, b));
      new;
      forall b: nat | b < |disk|
        ensures |disk[b]| == blockSize
      {
        BlockAtLength(device.sectors, per, b, device.sectorSize);
      }
    }

    method LoadSectors(first: nat, buffer: Block) returns (st: Status, block: Block)
      requires device.Valid() && 0 < perBlock && |buffer| == blockSize == perBlock * device.sectorSize
      ensures st == if first + perBlock <= device.sectorCount then Ok else ErrOutOfBounds
      ensures |block| == blockSize
      ensures st.Ok? ==> block == Bytes(device.sectors, first, perBlock)
    {
      var size := device.sectorSize;
      var remain, sectorNo, off := blockSize, first, 0;
      block := buffer;
      ghost var i := 0;
      while remain > 0
        invariant i <= perBlock && sectorNo == first + i
        invariant off == i * size && remain == blockSize - off && |block| == blockSize
        invariant i > 0 ==> first + i <= |device.sectors| && block[..off] == Bytes(device.sectors, first, i)
        decreases remain
      {
        SectorStep(i, perBlock, size);
        var err, sector := device.ReadSector(sectorNo);
        if err != Ok {
          return err, block;
        }
        block := block[..off] + sector + block[off + size..];
        remain := remain - size;
        off := off + size;
        sectorNo := sectorNo + 1;
        i := i + 1;
      }
      SectorStep(i, perBlock, size);
      assert block[..off] == block;
      st := Ok;
    }

    method LoadBlockRaw(no: nat, buffer: Block) returns (st: Status, block: Block)
      requires Valid() && |buffer| == blockSize
      requires no * perBlock + perBlock <= U32
      ensures st == if no < |disk| then Ok else ErrOutOfBounds
      ensures |block| == blockSize
      ensures st.Ok? ==> block == disk[no]
    {
      InRangeMeans(no, perBlock, device.sectorCount);
      DivMod(perBlock, 0, device.sectorSize);
      st, block := LoadSectors(no * (blockSize / device.sectorSize), buffer);
      assert st.Ok? ==> block == BlockAt(device.sectors, perBlock, no);
    }

    /** The sectors outside block no are as before. */
    twostate predicate OnlyBlock(no: nat)
      reads device
    {
      && |device.sectors| == |old(device.sectors)|
      && forall k :: 0 <= k < |device.sectors| && !(no * perBlock <= k < no * perBlock + perBlock) ==>
          device.sectors[k] == old(device.sectors)[k]
    }

    method SaveSectors(first: nat, block: Block) returns (st: Status)
      requires device.Valid() && 0 < perBlock && |block| == blockSize == perBlock * device.sectorSize
      modifies device
      ensures device.Valid() && |device.sectors| == old(|device.sectors|)
      ensures st == if first + perBlock <= device.sectorCount then Ok else ErrOutOfBounds
      ensures st == Ok ==> Bytes(device.sectors, first, perBlock) == block
      ensures forall k :: 0 <= k < |device.sectors| && !(first <= k < first + perBlock) ==>
                device.sectors[k] == old(device.sectors)[k]
    {
      var size := device.sectorSize;
      var remain, sectorNo, off := blockSize, first, 0;
      ghost var i := 0;
      while remain > 0
        invariant device.Valid() && |device.sectors| == old(|device.sectors|)
        invariant i <= perBlock && sectorNo == first + i && (i > 0 ==> first + i <= |device.sectors|)
        invariant off == i * size && remain == blockSize - off
        invariant i > 0 ==> block[..off] == Bytes(device.sectors, first, i)
        invariant forall k :: 0 <= k < |device.sectors| && !(first <= k < first + i) ==>
                    device.sectors[k] == old(device.sectors)[k]
        decreases remain
      {
        SectorStep(i, perBlock, size);
        ghost var before := device.sectors;
        st := device.WriteSector(sectorNo, block[off..off + size]);
        if st != Ok {
          return;
        }
        if i > 0 {
          BytesFrame(before, device.sectors, first, i);
        }
        assert block[..off] + block[off..off + size] == block[..off + size];
        remain := remain - size;
        off := off + size;
        sectorNo := sectorNo + 1;
        i := i + 1;
      }
      SectorStep(i, perBlock, size);
      assert block[..off] == block;
      st := Ok;
    }

    method SaveBlockRaw(no: nat, block: Block) returns (st: Status)
      requires Valid() && |block| == blockSize
      requires no * perBlock + perBlock <= U32
      modifies device, `disk
      ensures Valid() && OnlyBlock(no)
      ensures st == if no < |disk| then Ok else ErrOutOfBounds
      ensures disk == if st == Ok then old(disk)[no := block] else old(disk)
    {
      InRangeMeans(no, perBlock, device.sectorCount);
      DivMod(perBlock, 0, device.sectorSize);
      ghost var start := device.sectors;
      st := SaveSectors(no * (blockSize / device.sectorSize), block);
      OtherBlocksKept(start, device.sectors, perBlock, no);
      if st == Ok {
        disk := disk[no := block];
      }
    }
  }

  /** The first sector of a device begins like its first block. */
  lemma FirstSector(raw: RawStore, sb: Block)
    requires raw.Valid() && 0 < |raw.disk| && |sb| <= raw.device.sectorSize && |sb| <= |raw.disk[0]|
    requires raw.disk[0][..|sb|] == sb
    ensures 0 < |raw.device.sectors| && raw.device.sectors[0][..|sb|] == sb
  {
    InRangeMeans(0, raw.perBlock, |raw.device.sectors|);
    BytesBegin(raw.device.sectors, 0, raw.perBlock);
    assert raw.disk[0] == BlockAt(raw.device.sectors, raw.perBlock, 0);
  }
}
