/** The bitmap of used blocks. */
module Bitmaps {
  import opened Common
  import opened BlockCaches

  /** The bits of a byte, the lowest first. */
  function Bits(v: Byte): (r: seq<bool>)
    ensures |r| == 8
  {
    [v & 1 != 0, v & 2 != 0, v & 4 != 0, v & 8 != 0, v & 16 != 0, v & 32 != 0, v & 64 != 0, v & 128 != 0]
  }

  predicate HasBit(v: Byte, i: nat)
    requires i < 8
  {
    v & (1 << i) != 0
  }

  lemma BitAt(v: Byte, i: nat)
    requires i < 8
    ensures HasBit(v, i) == Bits(v)[i]
  {
  }

  lemma SetBitAt(v: Byte, i: nat, j: nat)
    requires i < 8 && j < 8
    ensures HasBit(v | (1 << i), j) <==> i == j || HasBit(v, j)
  {
  }

  lemma ClearBitAt(v: Byte, i: nat, j: nat)
    requires i < 8 && j < 8
    ensures HasBit(v & !(1 << i), j) <==> i != j && HasBit(v, j)
  {
  }

  lemma SetBit(v: Byte, i: nat)
    requires i < 8
    ensures Bits(v | (1 << i)) == Bits(v)[i := true]
  {
    hide Bits, HasBit;
    var r, s := Bits(v | (1 << i)), Bits(v)[i := true];
    forall j | 0 <= j < 8
      ensures r[j] == s[j]
    {
      SetBitAt(v, i, j);
      BitAt(v, j);
      BitAt(v | (1 << i), j);
    }
  }

  lemma ClearBit(v: Byte, i: nat)
    requires i < 8
    ensures Bits(v & !(1 << i)) == Bits(v)[i := false]
  {
    hide Bits, HasBit;
    var r, s := Bits(v & !(1 << i)), Bits(v)[i := false];
    forall j | 0 <= j < 8
      ensures r[j] == s[j]
    {
      ClearBitAt(v, i, j);
      BitAt(v, j);
      BitAt(v & !(1 << i), j);
    }
  }

  function WithBit(v: Byte, i: nat): (r: Byte)
    requires i < 8
    ensures Bits(r) == Bits(v)[i := true]
  {
    SetBit(v, i);
    v | (1 << i)
  }

  function WithoutBit(v: Byte, i: nat): (r: Byte)
    requires i < 8
    ensures Bits(r) == Bits(v)[i := false]
  {
    ClearBit(v, i);
    v & !(1 << i)
  }

  lemma FullByte(v: Byte)
    ensures v == 0xFF <==> forall i :: 0 <= i < 8 ==> Bits(v)[i]
  {
    var r := Bits(v);
    assert (r[0] && r[1] && r[2] && r[3] && r[4] && r[5] && r[6] && r[7]) <==> v == 0xFF;
  }

  function CeilDiv(x: nat, y: nat): (r: nat)
    requires 0 < y
  {
    (x + (y - 1)) / y
  }

  /** The blocks below n whose bit is set. */
  ghost function UsedIn(buffer: seq<Byte>, n: nat): (r: set<nat>)
    requires n <= 8 * |buffer|
    ensures forall b :: b in r <==> 0 <= b < n && Bits(buffer[b / 8])[b % 8]
  {
    set b: nat | b < n && Bits(buffer[b / 8])[b % 8]
  }

  /** Block b is the first free one from the byte of the hint on, going round the end. */
  ghost predicate FirstFree(used: set<nat>, blocks: nat, hint: nat, b: nat) {
    var start := hint / 8 * 8;
    && b < blocks && b !in used
    && if start <= b then forall c :: start <= c < b ==> c in used
       else (forall c :: start <= c < blocks ==> c in used) && forall c :: 0 <= c < b ==> c in used
  }

  lemma FirstFreeUnique(used: set<nat>, blocks: nat, hint: nat, b: nat, c: nat)
    requires FirstFree(used, blocks, hint, b) && FirstFree(used, blocks, hint, c)
    ensures b == c
  {
  }

  /** Rewriting bit b of the map adds or removes block b. */
  lemma Rewritten(buffer: seq<Byte>, n: nat, b: nat, v: Byte, used: bool)
    requires b < n <= 8 * |buffer| && Bits(v) == Bits(buffer[b / 8])[b % 8 := used]
    ensures UsedIn(buffer[b / 8 := v], n) == if used then UsedIn(buffer, n) + {b} else UsedIn(buffer, n) - {b}
  {
    hide Bits;
    forall c: nat | c < n
      ensures Bits(buffer[b / 8 := v][c / 8])[c % 8] == if c == b then used else Bits(buffer[c / 8])[c % 8]
    {
    }
  }

  ghost predicate HasFree(used: set<nat>, blocks: nat) {
    exists b: nat :: b < blocks && b !in used
  }

  /** The index after i, going round at n. */
  function Next(i: nat, n: nat): (r: nat)
    requires i < n
    ensures r == if i + 1 == n then 0 else i + 1
  {
    (i + 1) % n
  }

  class BlockBitmap {
    const blocksInDevice: nat
    const blockSize: nat
    const firstBlock: nat    // where the bitmap itself is stored
    const sizeInBlocks: nat
    const buffer: array<Byte>
    var hint: nat

    ghost predicate Fits() {
      buffer.Length == sizeInBlocks * blockSize && blocksInDevice <= 8 * buffer.Length
    }

    ghost predicate Valid()
      reads `hint
    {
      Fits() && (hint < blocksInDevice || hint == 0)
    }

    /** The used blocks. */
    ghost function Used(): (r: set<nat>)
      requires Fits()
      reads buffer
    {
      UsedIn(buffer[..], blocksInDevice)
    }

    constructor (first: nat, size: nat, blocks: nat, blockSize: nat)
      requires CeilDiv(blocks, 8) <= size * blockSize
      ensures Valid() && Used() == {} && hint == 0 && fresh(buffer)
      ensures blocksInDevice == blocks && this.blockSize == blockSize && firstBlock == first && sizeInBlocks == size
    {
      blocksInDevice, this.blockSize, firstBlock, sizeInBlocks := blocks, blockSize, first, size;
      buffer := new Byte[size * blockSize](_ => 0);
      hint := 0;
    }

    method IsUsed(b: nat) returns (r: bool)
      requires Valid()
      ensures r <==> b in Used()
    {
      hide Bits, HasBit;
      if b >= blocksInDevice {
        return false;
      }
      BitAt(buffer[b / 8], b % 8);
      return HasBit(buffer[b / 8], b % 8);
    }

    method IsFree(b: nat) returns (r: bool)
      requires Valid()
      ensures r <==> b < blocksInDevice && b !in Used()
    {
      hide Bits, HasBit;
      if b >= blocksInDevice {
        return false;
      }
      BitAt(buffer[b / 8], b % 8);
      return !HasBit(buffer[b / 8], b % 8);
    }

    method MarkUsed(b: nat)
      requires Valid()
      modifies buffer
      ensures Valid() && Used() == old(Used()) + if b < blocksInDevice then {b} else {}
    {
      hide Bits, UsedIn, WithBit, WithoutBit;
      if b >= blocksInDevice {
        return;
      }
      var v := WithBit(buffer[b / 8], b % 8);
      Rewritten(buffer[..], blocksInDevice, b, v, true);
      buffer[b / 8] := v;
      assert buffer[..] == old(buffer[..])[b / 8 := v];
    }

    method MarkFree(b: nat)
      requires Valid()
      modifies buffer
      ensures Valid() && Used() == old(Used()) - {b}
    {
      hide Bits, UsedIn, WithBit, WithoutBit;
      if b >= blocksInDevice {
        return;
      }
      var v := WithoutBit(buffer[b / 8], b % 8);
      Rewritten(buffer[..], blocksInDevice, b, v, false);
      buffer[b / 8] := v;
      assert buffer[..] == old(buffer[..])[b / 8 := v];
    }

    /** All in-range blocks of [lo, hi) are used. */
    ghost predicate Taken(lo: nat, hi: nat)
      requires Fits()
      reads buffer
    {
      forall b: nat :: lo <= b < hi && b < blocksInDevice ==> b in Used()
    }

    /** A block is used exactly when its bit is set. */
    lemma BitOf(byteNo: nat, bit: nat)
      requires Fits() && bit < 8 && 8 * byteNo + bit < blocksInDevice
      ensures byteNo < buffer.Length && (8 * byteNo + bit in Used() <==> HasBit(buffer[byteNo], bit))
    {
      hide Bits, HasBit;
      DivMod(byteNo, bit, 8);
      BitAt(buffer[byteNo], bit);
    }

    lemma FullByteTaken(byteNo: nat)
      requires Fits() && 8 * byteNo < blocksInDevice && byteNo < buffer.Length && buffer[byteNo] == 0xFF
      ensures Taken(8 * byteNo, 8 * byteNo + 8)
    {
      hide Bits, HasBit;
      FullByte(buffer[byteNo]);
      forall b: nat | 8 * byteNo <= b < 8 * byteNo + 8 && b < blocksInDevice
        ensures b in Used()
      {
        BitOf(byteNo, b - 8 * byteNo);
        BitAt(buffer[byteNo], b - 8 * byteNo);
      }
    }

    /** The first free bit of a byte. */
    method FreeBit(byteNo: nat) returns (found: bool, b: nat)
      requires Valid() && 8 * byteNo < blocksInDevice
      ensures found ==> 8 * byteNo <= b < blocksInDevice && b !in Used() && Taken(8 * byteNo, b)
      ensures !found ==> Taken(8 * byteNo, 8 * byteNo + 8)
    {
      hide HasBit, Used;
      BitOf(byteNo, 0);
      var v := buffer[byteNo];
      if v == 0xFF {
        FullByteTaken(byteNo);
        return false, 0;
      }
      for bit := 0 to 8
        invariant Taken(8 * byteNo, 8 * byteNo + bit)
      {
        var candidate := byteNo * 8 + bit;
        if candidate >= blocksInDevice {
          break;
        }
        BitOf(byteNo, bit);
        if HasBit(v, bit) {
          continue;
        }
        return true, candidate;
      }
      return false, 0;
    }

    /**
     * The first free block at or after the byte of the hint, going round the end.
     * The search fails only when every block is used.
     */
    method FindFreeBlock() returns (st: Status, b: nat)
      requires Valid()
      modifies `hint
      ensures Valid()
      ensures st == if HasFree(Used(), blocksInDevice) then Ok else ErrResourcesExhausted
      ensures st.Ok? ==> FirstFree(Used(), blocksInDevice, old(hint), b) && hint == Next(b, blocksInDevice)
      ensures !st.Ok? ==> hint == old(hint)
    {
      hide Bits, Next, UsedIn;
      var bytes := CeilDiv(blocksInDevice, 8);
      var byteNo: nat := hint / 8;
      ghost var start, wrapped := byteNo, false;
      for attempt := 0 to bytes
        invariant Valid() && hint == old(hint)
        invariant if wrapped then attempt == byteNo + bytes - start && byteNo <= start else attempt == byteNo - start
        invariant byteNo < bytes || bytes == 0
        invariant if wrapped then Taken(8 * start, blocksInDevice) && Taken(0, 8 * byteNo)
                  else Taken(8 * start, 8 * byteNo)
      {
        var found, candidate := FreeBit(byteNo);
        if found {
          hint := Next(candidate, blocksInDevice);
          assert candidate < blocksInDevice && candidate !in Used();
          return Ok, candidate;
        }
        if byteNo + 1 == bytes {
          wrapped := true;
        }
        byteNo := Next(byteNo, bytes);
      }
      assert bytes > 0 ==> wrapped && byteNo == start;
      return ErrResourcesExhausted, 0;
    }

    /** Where block i of the bitmap starts in the buffer. */
    lemma Slice(i: nat)
      requires Fits() && i < sizeInBlocks
      ensures i * blockSize + blockSize == (i + 1) * blockSize <= buffer.Length
    {
      assert (i + 1) * blockSize <= sizeInBlocks * blockSize;
    }

    /** Block i of the buffer. */
    ghost function Image(i: nat): (r: Block)
      requires Fits() && i < sizeInBlocks
      reads buffer
    {
      Slice(i);
      buffer[i * blockSize..i * blockSize + blockSize]
    }

    /** The blocks [first, first + n) of the device hold the first n blocks of the buffer. */
    ghost predicate Stored(view: seq<Block>, n: nat)
      requires Fits() && n <= sizeInBlocks && (n == 0 || firstBlock + n <= |view|)
      reads buffer
    {
      forall i :: 0 <= i < n ==> view[firstBlock + i] == Image(i)
    }

    /** Copies a block into the buffer. */
    method CopyIn(n: nat, block: Block)
      requires Fits() && n < sizeInBlocks && |block| == blockSize
      modifies buffer
      ensures Image(n) == block
      ensures forall i: nat :: i < n ==> Image(i) == old(Image(i))
    {
      Slice(n);
      forall k | 0 <= k < blockSize {
        buffer[n * blockSize + k] := block[k];
      }
      forall i: nat | i < n
        ensures Image(i) == old(Image(i))
      {
        Slice(i);
        assert (i + 1) * blockSize <= n * blockSize;
      }
    }

    ghost predicate Suits(cache: BlockCache)
      reads cache, cache.raw, cache.raw.device, cache.lru, cache.hash
    {
      && cache.Healthy()
      && cache.raw.blockSize == blockSize < U32
      && firstBlock + sizeInBlocks <= |cache.view|
    }

    /** All sectors of the bitmap have numbers of 32 bits. */
    ghost predicate Numbered(cache: BlockCache)
      reads cache`view
    {
      || firstBlock + sizeInBlocks <= |cache.view|
      || (firstBlock + sizeInBlocks) * cache.raw.perBlock <= U32
    }

    lemma NumberedAt(cache: BlockCache, i: nat)
      requires Numbered(cache) && i < sizeInBlocks
      ensures cache.Numbered(firstBlock + i)
    {
      MulMono(firstBlock + i + 1, firstBlock + sizeInBlocks, cache.raw.perBlock);
    }

    /** Reads the whole bitmap through the cache. Blocks that the device does not have make it fail. */
    method Load(cache: BlockCache) returns (st: Status)
      requires Fits() && cache.Healthy() && cache.raw.blockSize == blockSize < U32 && Numbered(cache)
      modifies buffer, cache, cache.raw, cache.raw.device, cache.lru, cache.hash
      ensures cache.Valid() && cache.view == old(cache.view)
      ensures st == if sizeInBlocks == 0 || firstBlock + sizeInBlocks <= |cache.view| then Ok else ErrOutOfBounds
      ensures st == Ok ==> cache.Healthy() && Fits() && Stored(cache.view, sizeInBlocks)
    {
      hide BlockCache.Valid, BlockCache.Resident, BlockCache.Lost, Image;
      for i := 0 to sizeInBlocks
        invariant cache.Healthy() && cache.view == old(cache.view) && (i > 0 ==> firstBlock + i <= |cache.view|)
        invariant Stored(cache.view, i)
      {
        NumberedAt(cache, i);
        var block;
        st, block := cache.Read(firstBlock + i, 0, blockSize);
        if st != Ok {
          return;
        }
        CopyIn(i, block);
      }
      st := Ok;
    }

    /** Writes block i of the buffer. */
    method SaveOne(cache: BlockCache, i: nat) returns (st: Status)
      requires Fits() && i < sizeInBlocks && cache.Healthy() && cache.raw.blockSize == blockSize < U32
      requires cache.Numbered(firstBlock + i)
      modifies cache, cache.raw, cache.raw.device, cache.lru, cache.hash
      ensures cache.Valid() && st == if firstBlock + i < |old(cache.view)| then Ok else ErrOutOfBounds
      ensures st == Ok ==> cache.Healthy() && cache.view == old(cache.view)[firstBlock + i := Image(i)]
      ensures st != Ok ==> cache.view == old(cache.view) && cache.Spilled(firstBlock + i)
    {
      hide BlockCache.Valid, BlockCache.Resident, BlockCache.Spilled, Splice;
      Slice(i);
      ghost var view := cache.view;
      st := cache.Write(firstBlock + i, 0, buffer[i * blockSize..i * blockSize + blockSize]);
      if st == Ok {
        SpliceWhole(view[firstBlock + i], Image(i));
      }
    }

    /** Writes the whole bitmap through the cache. Blocks that the device does not have make it fail. */
    method Save(cache: BlockCache) returns (st: Status)
      requires Fits() && cache.Healthy() && cache.raw.blockSize == blockSize < U32 && Numbered(cache)
      modifies cache, cache.raw, cache.raw.device, cache.lru, cache.hash
      ensures |cache.view| == |old(cache.view)| && cache.Valid()
      ensures st == if sizeInBlocks == 0 || firstBlock + sizeInBlocks <= |cache.view| then Ok else ErrOutOfBounds
      ensures firstBlock + sizeInBlocks <= |cache.view| ==> Suits(cache) && Stored(cache.view, sizeInBlocks)
      ensures forall b :: 0 <= b < |cache.view| && !(firstBlock <= b < firstBlock + sizeInBlocks) ==>
                cache.view[b] == old(cache.view)[b]
      ensures st != Ok && firstBlock >= |cache.view| ==> cache.Spilled(firstBlock)
    {
      hide BlockCache.Valid, BlockCache.Resident, BlockCache.Lost, BlockCache.Spilled, Image;
      if sizeInBlocks == 0 {
        return Ok;
      }
      NumberedAt(cache, 0);
      st := SaveOne(cache, 0);
      if st != Ok {
        return;
      }
      for i := 1 to sizeInBlocks
        invariant cache.Healthy() && |cache.view| == |old(cache.view)| && firstBlock + i <= |cache.view|
        invariant Stored(cache.view, i)
        invariant forall b :: 0 <= b < |cache.view| && !(firstBlock <= b < firstBlock + i) ==>
                    cache.view[b] == old(cache.view)[b]
      {
        NumberedAt(cache, i);
        st := SaveOne(cache, i);
        if st != Ok {
          return;
        }
      }
      st := Ok;
    }
  }

  /** A cleared bitmap, or none when the blocks set aside for it have too few bits. */
  method InitializeBlockBitmap(first: nat, size: nat, blocks: nat, blockSize: nat) returns (bitmap: BlockBitmap?)
    ensures bitmap == null <==> blocks > 8 * (size * blockSize)
    ensures bitmap != null ==> fresh(bitmap) && fresh(bitmap.buffer) && bitmap.Valid() && bitmap.Used() == {}
    ensures bitmap != null ==> bitmap.blocksInDevice == blocks && bitmap.hint == 0
    ensures bitmap != null ==> bitmap.blockSize == blockSize && bitmap.firstBlock == first
    ensures bitmap != null ==> bitmap.sizeInBlocks == size
  {
    if CeilDiv(blocks, 8) > size * blockSize {
      return null;
    }
    bitmap := new BlockBitmap(first, size, blocks, blockSize);
  }
}
