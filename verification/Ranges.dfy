/** Arrays of block ranges, as held in inodes and in indirect blocks. */
module Ranges {
  import opened Common
  import opened Bitmaps

  /** count consecutive blocks from first on; first == 0 marks an unused range. */
  datatype Range = Range(first: nat, count: nat)

  const EMPTY := Range(0, 0)

  /** No range is grown past this many blocks. */
  const MAX_COUNT: nat := 0xFFFF - 2

  /** The blocks of one range, in order. */
  ghost function Run(r: Range): (s: seq<nat>)
    ensures |s| == r.count
    ensures forall i :: 0 <= i < |s| ==> s[i] == r.first + i
  {
    seq(r.count, i requires 0 <= i => r.first + i)
  }

  /** The flat list of blocks that an array of ranges denotes. */
  ghost function Flat(arr: seq<Range>): (s: seq<nat>) {
    if arr == [] || arr[0].first == 0 then [] else Run(arr[0]) + Flat(arr[1..])
  }

  /** The number of used ranges. */
  ghost function Depth(arr: seq<Range>): (d: nat)
    ensures d <= |arr|
  {
    if arr == [] || arr[0].first == 0 then 0 else 1 + Depth(arr[1..])
  }

  /** Used ranges come first and are not empty, and all numbers fit their stored width. */
  ghost predicate Shaped(arr: seq<Range>) {
    && (forall i :: 0 <= i < |arr| ==> arr[i].first < U32 && arr[i].count <= 0xFFFF)
    && (forall i :: 0 <= i < Depth(arr) ==> arr[i].first != 0 && 0 < arr[i].count)
    && (forall i :: Depth(arr) <= i < |arr| ==> arr[i].first == 0)
  }

  /** Depth is the one position where the used ranges end. */
  lemma {:induction false} DepthIs(arr: seq<Range>, d: nat)
    requires d <= |arr|
    requires forall i :: 0 <= i < d ==> arr[i].first != 0
    requires d < |arr| ==> arr[d].first == 0
    ensures Depth(arr) == d
  {
    if d > 0 {
      DepthIs(arr[1..], d - 1);
    }
  }

  lemma {:induction false} DepthUsed(arr: seq<Range>)
    ensures forall i :: 0 <= i < Depth(arr) ==> arr[i].first != 0
    ensures Depth(arr) < |arr| ==> arr[Depth(arr)].first == 0
  {
    if arr != [] && arr[0].first != 0 {
      DepthUsed(arr[1..]);
      assert forall i :: 0 < i < Depth(arr) ==> arr[i] == arr[1..][i - 1];
    }
  }

  lemma FlatFirst(arr: seq<Range>)
    requires arr != [] && arr[0].first != 0
    ensures Flat(arr) == Run(arr[0]) + Flat(arr[1..]) && Depth(arr) == 1 + Depth(arr[1..])
  {
  }

  lemma FlatNone(arr: seq<Range>)
    requires arr == [] || arr[0].first == 0
    ensures Flat(arr) == [] && Depth(arr) == 0
  {
  }

  lemma {:induction false} FlatPrefix(arr: seq<Range>, k: nat)
    requires k <= Depth(arr)
    ensures Flat(arr) == Flat(arr[..k]) + Flat(arr[k..])
  {
    hide Flat, Run, Depth;
    if k == 0 {
      FlatNone(arr[..0]);
      assert arr[0..] == arr && [] + Flat(arr) == Flat(arr);
    } else {
      if arr[0].first == 0 {
        FlatNone(arr);
      }
      FlatFirst(arr);
      FlatFirst(arr[..k]);
      FlatPrefix(arr[1..], k - 1);
      assert arr[..k][1..] == arr[1..][..k - 1] && arr[1..][k - 1..] == arr[k..];
      Associative(Run(arr[0]), Flat(arr[1..][..k - 1]), Flat(arr[k..]));
    }
  }

  /** Nothing counts after the used ranges. */
  lemma {:induction false} FlatUsed(arr: seq<Range>)
    ensures Flat(arr) == Flat(arr[..Depth(arr)])
  {
    DepthUsed(arr);
    FlatPrefix(arr, Depth(arr));
    assert Flat(arr[Depth(arr)..]) == [];
  }

  /** Appending a range behind used ranges appends its blocks. */
  lemma {:induction false} FlatSnoc(arr: seq<Range>, r: Range)
    requires forall i :: 0 <= i < |arr| ==> arr[i].first != 0
    requires r.first != 0
    ensures Flat(arr + [r]) == Flat(arr) + Run(r)
  {
    if arr == [] {
      assert Flat([r]) == Run(r) + Flat([][..]);
    } else {
      assert (arr + [r])[1..] == arr[1..] + [r];
      FlatSnoc(arr[1..], r);
    }
  }

  lemma LastRange(arr: seq<Range>)
    requires Depth(arr) > 0
    ensures Flat(arr) == Flat(arr[..Depth(arr) - 1]) + Run(arr[Depth(arr) - 1])
  {
    var l := Depth(arr) - 1;
    DepthUsed(arr);
    FlatUsed(arr);
    assert arr[..l + 1] == arr[..l] + [arr[l]];
    FlatSnoc(arr[..l], arr[l]);
  }

  /** Opening a new range of one block behind the used ones. */
  lemma OpenRange(arr: seq<Range>, b: nat)
    requires Shaped(arr) && Depth(arr) < |arr| && 0 < b < U32
    ensures var arr' := arr[Depth(arr) := Range(b, 1)];
            Shaped(arr') && Flat(arr') == Flat(arr) + [b] && Depth(arr') == Depth(arr) + 1
  {
    var d := Depth(arr);
    DepthUsed(arr);
    DepthIs(arr[d := Range(b, 1)], d + 1);
    FlatUsed(arr);
    LastRange(arr[d := Range(b, 1)]);
    assert Run(Range(b, 1)) == [b];
  }

  /** Growing the last used range by the block behind it. */
  lemma GrowRange(arr: seq<Range>)
    requires Shaped(arr) && Depth(arr) > 0 && arr[Depth(arr) - 1].count < MAX_COUNT
    ensures var l := Depth(arr) - 1;
            var r := arr[l];
            var arr' := arr[l := Range(r.first, r.count + 1)];
            Shaped(arr') && Flat(arr') == Flat(arr) + [r.first + r.count] && Depth(arr') == Depth(arr)
  {
    hide Depth, Flat;
    var l := Depth(arr) - 1;
    var r := arr[l];
    var r' := Range(r.first, r.count + 1);
    var arr' := arr[l := r'];
    DepthUsed(arr);
    DepthIs(arr', l + 1);
    LastRange(arr);
    LastRange(arr');
    assert arr'[..l] == arr[..l] && Run(r') == Run(r) + [r.first + r.count];
  }

  lemma IsFree(used: set<nat>, blocks: nat, hint: nat, b: nat)
    requires FirstFree(used, blocks, hint, b)
    ensures b < blocks && b !in used
  {
  }

  /** The last range can grow: it is short enough and the block behind it is free. */
  ghost predicate CanGrow(arr: seq<Range>, used: set<nat>, blocks: nat) {
    var d := Depth(arr);
    d > 0 && arr[d - 1].count < MAX_COUNT && arr[d - 1].first + arr[d - 1].count < blocks &&
    arr[d - 1].first + arr[d - 1].count !in used
  }

  /**
   * Ranges a have become a' by gaining block b: the block behind the last range if that can grow, and otherwise
   * the first free one from the hint on, in a new range of its own, which moves the hint.
   */
  ghost predicate Appended(a: seq<Range>, used: set<nat>, blocks: nat, hint: nat, a': seq<Range>, b: nat, hint': nat) {
    var d := Depth(a);
    if CanGrow(a, used, blocks) then
      var last := a[d - 1];
      b == last.first + last.count && a' == a[d - 1 := Range(last.first, last.count + 1)] && hint' == hint
    else
      d < |a| && FirstFree(used, blocks, hint, b) && a' == a[d := Range(b, 1)] && hint' == Next(b, blocks)
  }

  /** What gaining a block does to the list of blocks. */
  lemma AppendedFlat(a: seq<Range>, used: set<nat>, blocks: nat, hint: nat, a': seq<Range>, b: nat, hint': nat)
    requires Appended(a, used, blocks, hint, a', b, hint') && Shaped(a) && 0 in used && blocks <= U32
    ensures Shaped(a') && |a'| == |a| && Flat(a') == Flat(a) + [b] && b < blocks && b !in used
    ensures Depth(a') == if CanGrow(a, used, blocks) then Depth(a) else Depth(a) + 1
  {
    hide Depth, Flat, Shaped, FirstFree;
    if CanGrow(a, used, blocks) {
      GrowRange(a);
    } else {
      assert b < blocks && b !in used by {
        IsFree(used, blocks, hint, b);
      }
      OpenRange(a, b);
    }
  }

  /** The index of the last used range, or -1. */
  method LastUsed(arr: array<Range>) returns (last: int)
    requires Shaped(arr[..])
    ensures last == Depth(arr[..]) - 1
  {
    var i := arr.Length - 1;
    while i >= 0
      invariant -1 <= i < arr.Length && Depth(arr[..]) <= i + 1
      decreases i
    {
      if arr[i].first != 0 {
        assert arr[..][i].first != 0;
        return i;
      }
      i := i - 1;
    }
    return -1;
  }

  /** Takes a free block for a new range behind the used ones. */
  method OpenNewRange(arr: array<Range>, bitmap: BlockBitmap, at: nat) returns (st: Status, newBlock: nat)
    requires Shaped(arr[..]) && at == Depth(arr[..]) < arr.Length
    requires bitmap.Valid() && 0 in bitmap.Used() && bitmap.blocksInDevice <= U32
    requires arr as object != bitmap.buffer
    modifies arr, bitmap`hint, bitmap.buffer
    ensures bitmap.Valid() && Shaped(arr[..])
    ensures st == if HasFree(old(bitmap.Used()), bitmap.blocksInDevice) then Ok else ErrResourcesExhausted
    ensures st != Ok ==>
              arr[..] == old(arr[..]) && bitmap.Used() == old(bitmap.Used()) && bitmap.hint == old(bitmap.hint)
    ensures st == Ok ==>
              && bitmap.Used() == old(bitmap.Used()) + {newBlock}
              && FirstFree(old(bitmap.Used()), bitmap.blocksInDevice, old(bitmap.hint), newBlock)
              && arr[..] == old(arr[..])[at := Range(newBlock, 1)]
              && bitmap.hint == Next(newBlock, bitmap.blocksInDevice)
  {
    hide BlockBitmap.Used, BlockBitmap.Fits, Flat, Shaped, Depth, HasFree, FirstFree, Next;
    st, newBlock := bitmap.FindFreeBlock();
    if st != Ok {
      return;
    }
    IsFree(bitmap.Used(), bitmap.blocksInDevice, old(bitmap.hint), newBlock);
    bitmap.MarkUsed(newBlock);
    OpenRange(arr[..], newBlock);
    arr[at] := Range(newBlock, 1);
    assert arr[..] == old(arr[..])[at := Range(newBlock, 1)];
  }

  /** Adds one free block at the end of the list, or reports that the array has no room. */
  method RangeArrayExpand(arr: array<Range>, bitmap: BlockBitmap) returns (st: Status, newBlock: nat, overflown: bool)
    requires Shaped(arr[..]) && 0 < arr.Length
    requires bitmap.Valid() && 0 in bitmap.Used() && bitmap.blocksInDevice <= U32
    requires arr as object != bitmap.buffer
    modifies arr, bitmap`hint, bitmap.buffer
    ensures bitmap.Valid() && Shaped(arr[..])
    ensures var a, u, n := old(arr[..]), old(bitmap.Used()), bitmap.blocksInDevice;
            && (overflown <==> !CanGrow(a, u, n) && Depth(a) == |a|)
            && st == (if CanGrow(a, u, n) || Depth(a) == |a| || HasFree(u, n) then Ok else ErrResourcesExhausted)
            && (st != Ok || overflown ==> arr[..] == a && bitmap.Used() == u && bitmap.hint == old(bitmap.hint))
            && (st == Ok && !overflown ==>
                  && Appended(a, u, n, old(bitmap.hint), arr[..], newBlock, bitmap.hint)
                  && newBlock < n && newBlock !in u && bitmap.Used() == u + {newBlock}
                  && Flat(arr[..]) == Flat(a) + [newBlock])
  {
    hide BlockBitmap.Used, BlockBitmap.Fits, Flat, Shaped, Depth, HasFree, FirstFree, Next;
    ghost var a, u := arr[..], bitmap.Used();
    overflown := false;
    var last := LastUsed(arr);
    if last == -1 {
      st, newBlock := OpenNewRange(arr, bitmap, 0);
      if st == Ok {
        AppendedFlat(a, u, bitmap.blocksInDevice, old(bitmap.hint), arr[..], newBlock, bitmap.hint);
      }
      return;
    }
    var r := arr[last];
    assert arr[..][last] == r;
    if r.count < MAX_COUNT {
      newBlock := r.first + r.count;
      var free := bitmap.IsFree(newBlock);
      if free {
        GrowRange(arr[..]);
        bitmap.MarkUsed(newBlock);
        arr[last] := Range(r.first, r.count + 1);
        assert arr[..] == old(arr[..])[last := Range(r.first, r.count + 1)];
        return Ok, newBlock, false;
      }
    }
    if last < arr.Length - 1 {
      st, newBlock := OpenNewRange(arr, bitmap, last + 1);
      if st == Ok {
        AppendedFlat(a, u, bitmap.blocksInDevice, old(bitmap.hint), arr[..], newBlock, bitmap.hint);
      }
      return;
    }
    return Ok, 0, true;
  }

  /**
   * Looks up position index of the list. When the list is too short, rest says how much of
   * the index is left for the next level.
   */
  method RangeArrayResolveIndex(arr: array<Range>, index: nat) returns (st: Status, rest: nat, blockNo: nat)
    requires Shaped(arr[..])
    ensures st == if index < |Flat(arr[..])| then Ok else ErrNotFound
    ensures st == Ok ==> blockNo == Flat(arr[..])[index] && rest == 0
    ensures st != Ok ==> rest == index - |Flat(arr[..])|
  {
    rest, blockNo := index, 0;
    ghost var a := arr[..];
    DepthUsed(a);
    for i := 0 to arr.Length
      invariant i <= Depth(a)
      invariant rest == index - |Flat(a)| + |Flat(a[i..])|
    {
      FlatPrefix(a, i);
      if arr[i].first == 0 {
        assert Flat(a[i..]) == [];
        break;
      }
      assert Flat(a[i..]) == Run(a[i]) + Flat(a[i + 1..]) by {
        assert a[i..][1..] == a[i + 1..];
      }
      if rest < arr[i].count {
        return Ok, 0, arr[i].first + rest;
      }
      rest := rest - arr[i].count;
    }
    st := ErrNotFound;
  }

  method ReleaseRange(range: Range, bitmap: BlockBitmap)
    requires bitmap.Valid()
    modifies bitmap.buffer
    ensures bitmap.Valid() && bitmap.Used() == old(bitmap.Used()) - Elems(Run(range))
  {
    hide BlockBitmap.Used, BlockBitmap.Fits;
    var i := range.count - 1;
    while i >= 0
      invariant -1 <= i < range.count && bitmap.Valid()
      invariant bitmap.Used() == old(bitmap.Used()) - Elems(Run(range)[i + 1..])
      decreases i
    {
      bitmap.MarkFree(range.first + i);
      assert Run(range)[i..] == [range.first + i] + Run(range)[i + 1..];
      i := i - 1;
    }
  }

  /** The blocks from range r on. */
  ghost function From(a: seq<Range>, r: nat): (blocks: set<nat>)
    requires r <= |a|
  {
    Elems(Flat(a[r..]))
  }

  lemma FromStep(a: seq<Range>, r: nat)
    requires Shaped(a) && r < |a|
    ensures From(a, r) == (if a[r].first == 0 then {} else Elems(Run(a[r]))) + From(a, r + 1)
    ensures a[r].count <= 0xFFFF
  {
    DepthUsed(a);
    assert a[r..][1..] == a[r + 1..];
    if a[r].first == 0 {
      assert Flat(a[r..]) == [] && Flat(a[r + 1..]) == [];
    }
  }

  lemma FromEnds(a: seq<Range>)
    ensures From(a, 0) == Elems(Flat(a)) && From(a, |a|) == {}
  {
    assert a[0..] == a && a[|a|..] == [];
  }

  lemma NoneUsed(a: seq<Range>)
    requires forall i :: 0 <= i < |a| ==> a[i].first == 0 && a[i].count <= 0xFFFF
    ensures Flat(a) == [] && Shaped(a)
  {
    DepthIs(a, 0);
  }

  /** Marks all blocks of the list free and empties the array. */
  method RangeArrayReleaseBlocks(arr: array<Range>, bitmap: BlockBitmap)
    requires Shaped(arr[..]) && bitmap.Valid() && arr as object != bitmap.buffer
    modifies arr, bitmap.buffer
    ensures bitmap.Valid() && bitmap.Used() == old(bitmap.Used()) - Elems(old(Flat(arr[..])))
    ensures Flat(arr[..]) == [] && Shaped(arr[..])
    ensures forall i :: 0 <= i < arr.Length ==> arr[i].first == 0
  {
    hide BlockBitmap.Used, BlockBitmap.Fits, Flat, Shaped, Run, Elems, From;
    ghost var a, u := arr[..], bitmap.Used();
    FromEnds(a);
    var r := arr.Length - 1;
    while r >= 0
      invariant -1 <= r < arr.Length && bitmap.Valid() && bitmap.Used() == u - From(a, r + 1)
      invariant forall i :: 0 <= i <= r ==> arr[i] == a[i]
      invariant forall i :: r < i < arr.Length ==> arr[i].first == 0 && arr[i].count <= 0xFFFF
      decreases r
    {
      FromStep(a, r);
      if arr[r].first != 0 {
        ReleaseRange(arr[r], bitmap);
        arr[r] := EMPTY;
      }
      r := r - 1;
    }
    NoneUsed(arr[..]);
  }
}
