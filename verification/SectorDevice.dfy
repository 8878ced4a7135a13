/** The sector device under the file system, and the blocks laid out on it. */
module SectorDevices {
  import opened Common

  /** The bytes of n consecutive sectors, starting at sector lo. */
  ghost function Bytes(sectors: seq<Block>, lo: nat, n: nat): (r: Block)
    requires lo + n <= |sectors|
  {
    if n == 0 then [] else Bytes(sectors, lo, n - 1) + sectors[lo + n - 1]
  }

  lemma {:induction false} BytesLength(sectors: seq<Block>, lo: nat, n: nat, size: nat)
    requires lo + n <= |sectors|
    requires forall i :: 0 <= i < |sectors| ==> |sectors[i]| == size
    ensures |Bytes(sectors, lo, n)| == n * size
  {
    if n > 0 {
      BytesLength(sectors, lo, n - 1, size);
      assert (n - 1) * size + size == n * size;
    }
  }

  /** Bytes depends on the sectors it covers only. */
  lemma {:induction false} BytesFrame(sectors: seq<Block>, sectors': seq<Block>, lo: nat, n: nat)
    requires lo + n <= |sectors| == |sectors'|
    requires forall i :: lo <= i < lo + n ==> sectors[i] == sectors'[i]
    ensures Bytes(sectors, lo, n) == Bytes(sectors', lo, n)
  {
    if n > 0 {
      BytesFrame(sectors, sectors', lo, n - 1);
    }
  }

  /** The sectors of a block begin with the first one. */
  lemma {:induction false} BytesBegin(sectors: seq<Block>, lo: nat, n: nat)
    requires 0 < n && lo + n <= |sectors|
    ensures sectors[lo] <= Bytes(sectors, lo, n)
  {
    if n > 1 {
      BytesBegin(sectors, lo, n - 1);
    } else {
      assert Bytes(sectors, lo, 0) == [];
    }
  }

  class SectorDevice {
    const sectorSize: nat
    const sectorCount: nat
    var sectors: seq<Block>

    ghost predicate Valid()
      reads this
    {
      && 0 < sectorSize
      && |sectors| == sectorCount < U32
      && forall i :: 0 <= i < |sectors| ==> |sectors[i]| == sectorSize
    }

    constructor (size: nat, content: seq<Block>)
      requires 0 < size && |content| < U32
      requires forall i :: 0 <= i < |content| ==> |content[i]| == size
      ensures Valid() && sectorSize == size && sectors == content
    {
      sectorSize, sectorCount, sectors := size, |content|, content;
    }

    method ReadSector(no: nat) returns (st: Status, data: Block)
      requires Valid()
      ensures st == if no < sectorCount then Ok else ErrOutOfBounds
      ensures st.Ok? ==> data == sectors[no]
    {
      if no >= sectorCount {
        return ErrOutOfBounds, [];
      }
      return Ok, sectors[no];
    }

    method WriteSector(no: nat, data: Block) returns (st: Status)
      requires Valid() && |data| == sectorSize
      modifies this
      ensures Valid()
      ensures st == if no < sectorCount then Ok else ErrOutOfBounds
      ensures sectors == if no < sectorCount then old(sectors)[no := data] else old(sectors)
    {
      if no >= sectorCount {
        return ErrOutOfBounds;
      }
      sectors := sectors[no := data];
      return Ok;
    }
  }
}
