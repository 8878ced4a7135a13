/** The blocks of a heap region in address order, and what a heap in good shape looks like. */
module HeapShapes {

  /** A block: its header at addr, then size bytes. */
  datatype Blk = Blk(addr: nat, size: nat, used: bool)

  /** Block k ends where block k + 1 starts. */
  ghost predicate Adjoins(bs: seq<Blk>, k: nat, h: nat)
    requires k + 1 < |bs|
  {
    bs[k].addr + h + bs[k].size == bs[k + 1].addr
  }

  ghost predicate Parted(bs: seq<Blk>, k: nat)
    requires k + 1 < |bs|
  {
    bs[k].used || bs[k + 1].used
  }

  /** The blocks fill [start, end) without gaps; the last one is the used, empty one that marks the end. */
  ghost predicate Tiled(bs: seq<Blk>, start: nat, end: nat, h: nat) {
    && bs != [] && bs[0].addr == start
    && (forall k: nat :: k < |bs| - 1 ==> Adjoins(bs, k, h))
    && bs[|bs| - 1].used && bs[|bs| - 1].size == 0 && bs[|bs| - 1].addr + h == end
  }

  ghost predicate NoTwoFree(bs: seq<Blk>) {
    forall k: nat :: k < |bs| - 1 ==> Parted(bs, k)
  }

  /** The bytes in free blocks. */
  ghost function FreeSum(bs: seq<Blk>): (s: nat) {
    if bs == [] then 0 else (if bs[0].used then 0 else bs[0].size) + FreeSum(bs[1..])
  }

  ghost predicate Shape(bs: seq<Blk>, start: nat, end: nat, h: nat) {
    0 < h && Tiled(bs, start, end, h) && NoTwoFree(bs)
  }

  /** Blocks lie in address order and do not overlap. */
  lemma {:induction false} Apart(bs: seq<Blk>, start: nat, end: nat, h: nat, j: nat, k: nat)
    requires Tiled(bs, start, end, h) && j < k < |bs|
    ensures bs[j].addr + h + bs[j].size <= bs[k].addr
  {
    assert Adjoins(bs, k - 1, h);
    if j + 1 < k {
      Apart(bs, start, end, h, j, k - 1);
    }
  }

  /** Every block lies inside the region. */
  lemma Inside(bs: seq<Blk>, start: nat, end: nat, h: nat, k: nat)
    requires Tiled(bs, start, end, h) && k < |bs|
    ensures start <= bs[k].addr && bs[k].addr + h + bs[k].size <= end
  {
    if k > 0 {
      Apart(bs, start, end, h, 0, k);
    }
    if k < |bs| - 1 {
      Apart(bs, start, end, h, k, |bs| - 1);
    }
  }

  /** No payload in use overlaps another block's header or payload. */
  lemma LiveApart(bs: seq<Blk>, start: nat, end: nat, h: nat, j: nat, k: nat)
    requires Shape(bs, start, end, h) && j < |bs| && k < |bs| && j != k
    ensures bs[j].addr + h + bs[j].size <= bs[k].addr || bs[k].addr + h + bs[k].size <= bs[j].addr
    ensures bs[j].addr != bs[k].addr
  {
    if j < k {
      Apart(bs, start, end, h, j, k);
    } else {
      Apart(bs, start, end, h, k, j);
    }
  }

  lemma {:induction false} FreeSumConcat(a: seq<Blk>, b: seq<Blk>)
    ensures FreeSum(a + b) == FreeSum(a) + FreeSum(b)
  {
    if a == [] {
      assert a + b == b;
    } else {
      assert (a + b)[1..] == a[1..] + b;
      FreeSumConcat(a[1..], b);
    }
  }

  /** Replacing the blocks [i, j) by others changes the sum by what they hold. */
  lemma FreeSumReplace(bs: seq<Blk>, i: nat, j: nat, mid: seq<Blk>)
    requires i <= j <= |bs|
    ensures FreeSum(bs[..i] + mid + bs[j..]) + FreeSum(bs[i..j]) == FreeSum(bs) + FreeSum(mid)
  {
    assert bs == bs[..i] + bs[i..j] + bs[j..];
    FreeSumConcat(bs[..i] + bs[i..j], bs[j..]);
    FreeSumConcat(bs[..i], bs[i..j]);
    FreeSumConcat(bs[..i] + mid, bs[j..]);
    FreeSumConcat(bs[..i], mid);
  }

  lemma FreeSumOne(a: Blk)
    ensures FreeSum([a]) == if a.used then 0 else a.size
  {
  }

  lemma FreeSumTwo(a: Blk, b: Blk)
    ensures FreeSum([a, b]) == FreeSum([a]) + FreeSum([b]) == (if a.used then 0 else a.size) +
              if b.used then 0 else b.size
  {
    FreeSumConcat([a], [b]);
    assert [a] + [b] == [a, b];
  }

  /** Block k in use, the rest of it split off as a new free block. */
  function SplitAt(bs: seq<Blk>, k: nat, size: nat, h: nat): (r: seq<Blk>)
    requires k < |bs| && size + h <= bs[k].size
  {
    bs[..k] + [Blk(bs[k].addr, size, true), Blk(bs[k].addr + h + size, bs[k].size - h - size, false)] + bs[k + 1..]
  }

  /** Block k + 1 joined to block k. */
  function Merged(bs: seq<Blk>, k: nat, h: nat): (r: seq<Blk>)
    requires k + 1 < |bs|
    ensures |r| == |bs| - 1
  {
    bs[..k] + [Blk(bs[k].addr, bs[k].size + h + bs[k + 1].size, bs[k].used)] + bs[k + 2..]
  }

  lemma SplitShape(bs: seq<Blk>, start: nat, end: nat, h: nat, k: nat, size: nat)
    requires Shape(bs, start, end, h) && k < |bs| && !bs[k].used && size + h <= bs[k].size
    ensures Shape(SplitAt(bs, k, size, h), start, end, h)
  {
    var r := SplitAt(bs, k, size, h);
    forall j: nat | j < |r| - 1
      ensures Adjoins(r, j, h) && Parted(r, j)
    {
      if j < k {
        assert Adjoins(bs, j, h) && Parted(bs, j);
      } else if j > k {
        assert Adjoins(bs, j - 1, h) && Parted(bs, j - 1);
      }
    }
  }

  lemma SplitSum(bs: seq<Blk>, k: nat, size: nat, h: nat)
    requires k < |bs| && !bs[k].used && size + h <= bs[k].size
    ensures FreeSum(SplitAt(bs, k, size, h)) + size + h == FreeSum(bs)
  {
    hide FreeSum;
    var a, b := Blk(bs[k].addr, size, true), Blk(bs[k].addr + h + size, bs[k].size - h - size, false);
    FreeSumReplace(bs, k, k + 1, [a, b]);
    FreeSumTwo(a, b);
    FreeSumOne(bs[k]);
    assert bs[k..k + 1] == [bs[k]];
  }

  lemma MergedTiled(bs: seq<Blk>, start: nat, end: nat, h: nat, k: nat)
    requires Tiled(bs, start, end, h) && k + 1 < |bs| && !bs[k + 1].used
    ensures Tiled(Merged(bs, k, h), start, end, h)
  {
    var r := Merged(bs, k, h);
    forall j: nat | j < |r| - 1
      ensures Adjoins(r, j, h)
    {
      assert Adjoins(bs, k, h);
      if j < k {
        assert Adjoins(bs, j, h);
      } else {
        assert Adjoins(bs, j + 1, h);
      }
    }
  }

  lemma MergedSum(bs: seq<Blk>, k: nat, h: nat)
    requires k + 1 < |bs| && !bs[k].used && !bs[k + 1].used
    ensures FreeSum(Merged(bs, k, h)) == FreeSum(bs) + h
  {
    hide FreeSum;
    var c := Blk(bs[k].addr, bs[k].size + h + bs[k + 1].size, bs[k].used);
    FreeSumReplace(bs, k, k + 2, [c]);
    FreeSumOne(c);
    FreeSumTwo(bs[k], bs[k + 1]);
    assert bs[k..k + 2] == [bs[k], bs[k + 1]];
  }

  /** Block k marked used or free. */
  function Flagged(bs: seq<Blk>, k: nat, used: bool): (r: seq<Blk>)
    requires k < |bs|
  {
    bs[k := bs[k].(used := used)]
  }

  lemma FlaggedTiled(bs: seq<Blk>, start: nat, end: nat, h: nat, k: nat, used: bool)
    requires Tiled(bs, start, end, h) && k < |bs| - 1
    ensures Tiled(Flagged(bs, k, used), start, end, h)
  {
    forall j: nat | j < |bs| - 1
      ensures Adjoins(Flagged(bs, k, used), j, h)
    {
      assert Adjoins(bs, j, h);
    }
  }

  lemma FlaggedSum(bs: seq<Blk>, k: nat)
    requires k < |bs|
    ensures FreeSum(Flagged(bs, k, false)) == FreeSum(Flagged(bs, k, true)) + bs[k].size
    ensures Flagged(bs, k, bs[k].used) == bs
  {
    hide FreeSum;
    var free, taken := Flagged(bs, k, false), Flagged(bs, k, true);
    FreeSumReplace(free, k, k + 1, [taken[k]]);
    assert free[..k] + [taken[k]] + free[k + 1..] == taken;
    assert free[k..k + 1] == [free[k]];
    FreeSumOne(free[k]);
    FreeSumOne(taken[k]);
  }

  /** The blocks after block k is given back: joined to the free blocks beside it. */
  function Freed(bs: seq<Blk>, k: nat, h: nat): (r: seq<Blk>)
    requires k + 1 < |bs|
  {
    var freed := Flagged(bs, k, false);
    var right := if freed[k + 1].used then freed else Merged(freed, k, h);
    if k == 0 || right[k - 1].used then right else Merged(right, k - 1, h)
  }

  lemma RightTiled(bs: seq<Blk>, start: nat, end: nat, h: nat, k: nat)
    requires Tiled(bs, start, end, h) && k + 1 < |bs|
    ensures var freed := Flagged(bs, k, false);
            var right := if freed[k + 1].used then freed else Merged(freed, k, h);
            Tiled(right, start, end, h) && |right| > k + 1
  {
    FlaggedTiled(bs, start, end, h, k, false);
    var freed := Flagged(bs, k, false);
    if !freed[k + 1].used {
      MergedTiled(freed, start, end, h, k);
    }
  }

  lemma FreedParted(bs: seq<Blk>, h: nat, k: nat)
    requires NoTwoFree(bs) && k + 1 < |bs| && bs[k].used && bs[|bs| - 1].used
    ensures NoTwoFree(Freed(bs, k, h))
  {
    var r := Freed(bs, k, h);
    var right, left := !bs[k + 1].used, k > 0 && !bs[k - 1].used;
    forall j: nat | j < |r| - 1
      ensures Parted(r, j)
    {
      var at := if left then k - 1 else k;
      var skip := (if right then 1 else 0) + if left then 1 else 0;
      if j + 1 < at {
        assert Parted(bs, j);
      } else if j > at {
        assert Parted(bs, j + skip);
      } else if j + 1 == at {
        assert left ==> Parted(bs, j);
      } else {
        assert right ==> Parted(bs, k + 1);
      }
    }
  }

  lemma FreedShape(bs: seq<Blk>, start: nat, end: nat, h: nat, k: nat)
    requires Shape(bs, start, end, h) && k + 1 < |bs| && bs[k].used
    ensures Shape(Freed(bs, k, h), start, end, h)
  {
    var freed := Flagged(bs, k, false);
    var right := if freed[k + 1].used then freed else Merged(freed, k, h);
    RightTiled(bs, start, end, h, k);
    if !(k == 0 || right[k - 1].used) {
      MergedTiled(right, start, end, h, k - 1);
    }
    FreedParted(bs, h, k);
  }

  // Live allocations

  /** The payloads of the used blocks: their sizes by address. */
  ghost function Payloads(bs: seq<Blk>, h: nat): (m: map<nat, nat>) {
    if bs == [] then map[]
    else (if bs[0].used then map[bs[0].addr + h := bs[0].size] else map[]) + Payloads(bs[1..], h)
  }

  /** The live allocations: all payloads but that of the block at the end. */
  ghost function Live(bs: seq<Blk>, h: nat): (m: map<nat, nat>) {
    if bs == [] then map[] else Payloads(bs[..|bs| - 1], h)
  }

  lemma MapAssociative(a: map<nat, nat>, b: map<nat, nat>, c: map<nat, nat>)
    ensures a + (b + c) == (a + b) + c
  {
  }

  lemma {:induction false} PayloadsConcat(a: seq<Blk>, b: seq<Blk>, h: nat)
    ensures Payloads(a + b, h) == Payloads(a, h) + Payloads(b, h)
  {
    if a == [] {
      assert a + b == b;
    } else {
      assert (a + b)[1..] == a[1..] + b;
      PayloadsConcat(a[1..], b, h);
      var first := if a[0].used then map[a[0].addr + h := a[0].size] else map[];
      MapAssociative(first, Payloads(a[1..], h), Payloads(b, h));
    }
  }

  lemma {:induction false} PayloadsBetween(bs: seq<Blk>, h: nat, lo: nat, hi: nat)
    requires forall k :: 0 <= k < |bs| ==> lo <= bs[k].addr < hi
    ensures forall p :: p in Payloads(bs, h) ==> lo + h <= p < hi + h
  {
    if bs != [] {
      PayloadsBetween(bs[1..], h, lo, hi);
    }
  }

  lemma OnePayload(b: Blk, h: nat)
    ensures Payloads([b], h) == if b.used then map[b.addr + h := b.size] else map[]
  {
  }

  lemma NoneElsewhere(bs: seq<Blk>, start: nat, end: nat, h: nat, k: nat)
    requires Tiled(bs, start, end, h) && 0 < h && k < |bs| - 1
    ensures bs[k].addr + h !in Payloads(bs[..k], h) && bs[k].addr + h !in Payloads(bs[k + 1..|bs| - 1], h)
  {
    hide Payloads;
    forall j | 0 <= j < k
      ensures 0 <= bs[j].addr < bs[k].addr
    {
      Apart(bs, start, end, h, j, k);
    }
    PayloadsBetween(bs[..k], h, 0, bs[k].addr);
    forall j | k < j < |bs|
      ensures bs[k].addr + 1 <= bs[j].addr < end
    {
      Apart(bs, start, end, h, k, j);
      Inside(bs, start, end, h, j);
    }
    PayloadsBetween(bs[k + 1..|bs| - 1], h, bs[k].addr + 1, end);
  }

  /** The live allocations before block k, in block k, and after it. */
  lemma LiveAround(bs: seq<Blk>, start: nat, end: nat, h: nat, k: nat)
    requires Tiled(bs, start, end, h) && 0 < h && k < |bs| - 1
    ensures var left, right, p := Payloads(bs[..k], h), Payloads(bs[k + 1..|bs| - 1], h), bs[k].addr + h;
            && Live(bs, h) == left + (if bs[k].used then map[p := bs[k].size] else map[]) + right
            && p !in left && p !in right
  {
    hide Payloads;
    var l, r := bs[..k], bs[k + 1..|bs| - 1];
    assert bs[..|bs| - 1] == l + [bs[k]] + r;
    PayloadsConcat(l + [bs[k]], r, h);
    PayloadsConcat(l, [bs[k]], h);
    OnePayload(bs[k], h);
    NoneElsewhere(bs, start, end, h, k);
  }

  lemma SameAround(bs: seq<Blk>, start: nat, end: nat, h: nat, k: nat, used: bool)
    requires Tiled(bs, start, end, h) && 0 < h && k < |bs| - 1
    ensures Live(Flagged(bs, k, used), h) == Payloads(bs[..k], h) +
              (if used then map[bs[k].addr + h := bs[k].size] else map[])
                                             + Payloads(bs[k + 1..|bs| - 1], h)
  {
    hide Payloads, Live;
    var r := Flagged(bs, k, used);
    FlaggedTiled(bs, start, end, h, k, used);
    LiveAround(r, start, end, h, k);
    assert r[..k] == bs[..k] && r[k + 1..|r| - 1] == bs[k + 1..|bs| - 1];
  }

  /** Marking a block used or free makes its payload live or not. */
  lemma FlaggedLive(bs: seq<Blk>, start: nat, end: nat, h: nat, k: nat)
    requires Tiled(bs, start, end, h) && 0 < h && k < |bs| - 1
    ensures var p := bs[k].addr + h;
            && (bs[k].used <==> p in Live(bs, h)) && (bs[k].used ==> Live(bs, h)[p] == bs[k].size)
            && Live(Flagged(bs, k, true), h) == Live(bs, h)[p := bs[k].size]
            && Live(Flagged(bs, k, false), h) == Live(bs, h) - {p}
  {
    hide Payloads, Live;
    LiveAround(bs, start, end, h, k);
    SameAround(bs, start, end, h, k, true);
    SameAround(bs, start, end, h, k, false);
  }

  /** Joining two free blocks leaves the live allocations alone. */
  lemma MergedLive(bs: seq<Blk>, h: nat, k: nat)
    requires k + 2 < |bs| && !bs[k].used && !bs[k + 1].used
    ensures Live(Merged(bs, k, h), h) == Live(bs, h)
  {
    hide Payloads;
    var r, n := Merged(bs, k, h), |bs|;
    var c := r[k];
    OnePayload(c, h);
    OnePayload(bs[k], h);
    OnePayload(bs[k + 1], h);
    assert bs[..n - 1] == bs[..k] + [bs[k]] + [bs[k + 1]] + bs[k + 2..n - 1];
    PayloadsConcat(bs[..k] + [bs[k]] + [bs[k + 1]], bs[k + 2..n - 1], h);
    PayloadsConcat(bs[..k] + [bs[k]], [bs[k + 1]], h);
    PayloadsConcat(bs[..k], [bs[k]], h);
    assert r[..n - 2] == bs[..k] + [c] + bs[k + 2..n - 1];
    PayloadsConcat(bs[..k] + [c], bs[k + 2..n - 1], h);
    PayloadsConcat(bs[..k], [c], h);
  }

  /** Splitting a free block makes its first part live. */
  lemma SplitLive(bs: seq<Blk>, start: nat, end: nat, h: nat, k: nat, size: nat)
    requires Shape(bs, start, end, h) && k < |bs| - 1 && !bs[k].used && size + h <= bs[k].size
    ensures bs[k].addr + h !in Live(bs, h)
    ensures Live(SplitAt(bs, k, size, h), h) == Live(bs, h)[bs[k].addr + h := size]
  {
    hide Payloads, Live, Tiled, NoTwoFree;
    var r, n := SplitAt(bs, k, size, h), |bs|;
    SplitShape(bs, start, end, h, k, size);
    LiveAround(r, start, end, h, k);
    LiveAround(bs, start, end, h, k);
    OnePayload(r[k + 1], h);
    assert r[..k] == bs[..k] && r[k + 1..n] == [r[k + 1]] + bs[k + 1..n - 1];
    PayloadsConcat([r[k + 1]], bs[k + 1..n - 1], h);
  }

  /** Giving block k back takes its payload out of the live ones. */
  lemma FreedLive(bs: seq<Blk>, start: nat, end: nat, h: nat, k: nat)
    requires Shape(bs, start, end, h) && k + 1 < |bs| && bs[k].used
    ensures Live(Freed(bs, k, h), h) == Live(bs, h) - {bs[k].addr + h}
  {
    hide Payloads, Live, NoTwoFree;
    FlaggedLive(bs, start, end, h, k);
    var freed := Flagged(bs, k, false);
    if !freed[k + 1].used {
      MergedLive(freed, h, k);
    }
    var right := if freed[k + 1].used then freed else Merged(freed, k, h);
    RightTiled(bs, start, end, h, k);
    if !(k == 0 || right[k - 1].used) {
      MergedLive(right, h, k - 1);
    }
  }

  lemma OnePayloads(h: nat)
    ensures Payloads([], h) == map[]
  {
  }

  // The shape follows from the live allocations

  /** The first block is used exactly when its payload is live; the other live payloads are those of the rest. */
  lemma LiveFirst(bs: seq<Blk>, start: nat, end: nat, h: nat)
    requires Tiled(bs, start, end, h) && 0 < h && |bs| > 1
    ensures bs[0].used <==> start + h in Live(bs, h)
    ensures bs[0].used ==> Live(bs, h)[start + h] == bs[0].size
    ensures Live(bs[1..], h) == Live(bs, h) - {start + h}
    ensures Tiled(bs[1..], start + h + bs[0].size, end, h)
    ensures forall p :: p in Live(bs[1..], h) ==> start + h + bs[0].size + h <= p
  {
    hide Payloads;
    LiveAround(bs, start, end, h, 0);
    assert bs[..0] == [];
    OnePayloads(h);
    var rest := bs[1..];
    assert rest[..|rest| - 1] == bs[1..|bs| - 1];
    assert Adjoins(bs, 0, h);
    forall k: nat | k < |rest| - 1
      ensures Adjoins(rest, k, h)
    {
      assert Adjoins(bs, k + 1, h);
    }
    forall k | 0 <= k < |rest|
      ensures rest[0].addr <= rest[k].addr < end
    {
      Inside(rest, start + h + bs[0].size, end, h, k);
    }
    PayloadsBetween(rest[..|rest| - 1], h, rest[0].addr, end);
  }

  lemma RestParted(bs: seq<Blk>)
    requires NoTwoFree(bs) && |bs| > 1
    ensures NoTwoFree(bs[1..]) && (bs[0].used || bs[1].used)
  {
    forall k: nat | k < |bs| - 2
      ensures Parted(bs[1..], k)
    {
      assert Parted(bs, k + 1);
    }
    assert Parted(bs, 0);
  }

  lemma OnlyTheEnd(bs: seq<Blk>, cs: seq<Blk>, start: nat, end: nat, h: nat)
    requires Tiled(bs, start, end, h) && Tiled(cs, start, end, h) && 0 < h && |bs| == 1
    ensures bs == cs
  {
    if |cs| > 1 {
      Apart(cs, start, end, h, 0, |cs| - 1);
    }
    assert cs == [cs[0]];
  }

  /** A first block cannot be shorter than the other's: the block behind it would be a live one. */
  lemma FirstAsLong(bs: seq<Blk>, cs: seq<Blk>, start: nat, end: nat, h: nat)
    requires Shape(bs, start, end, h) && Shape(cs, start, end, h) && Live(bs, h) == Live(cs, h)
    requires |bs| > 1 && |cs| > 1
    ensures bs[0].size >= cs[0].size
  {
    hide Live, Payloads, NoTwoFree;
    LiveFirst(bs, start, end, h);
    LiveFirst(cs, start, end, h);
    RestParted(bs);
    if bs[0].size < cs[0].size {
      var rest, at := bs[1..], start + h + bs[0].size;
      Inside(cs, start, end, h, 1);
      assert Adjoins(cs, 0, h);
      if |rest| > 1 {
        LiveFirst(rest, at, end, h);
      }
      assert false;
    }
  }

  /** A heap in good shape is determined by its live allocations. */
  lemma {:induction false} Canonical(bs: seq<Blk>, cs: seq<Blk>, start: nat, end: nat, h: nat)
    requires Shape(bs, start, end, h) && Shape(cs, start, end, h) && Live(bs, h) == Live(cs, h)
    ensures bs == cs
    decreases |bs|
  {
    hide Live, Payloads, NoTwoFree;
    if |bs| == 1 {
      OnlyTheEnd(bs, cs, start, end, h);
    } else if |cs| == 1 {
      OnlyTheEnd(cs, bs, start, end, h);
    } else {
      LiveFirst(bs, start, end, h);
      LiveFirst(cs, start, end, h);
      RestParted(bs);
      RestParted(cs);
      if bs[0].size < cs[0].size {
        FirstAsLong(bs, cs, start, end, h);
      } else if cs[0].size < bs[0].size {
        FirstAsLong(cs, bs, start, end, h);
      }
      assert bs[0] == cs[0];
      Canonical(bs[1..], cs[1..], start + h + bs[0].size, end, h);
      assert bs == [bs[0]] + bs[1..] && cs == [cs[0]] + cs[1..];
    }
  }

  /** With nothing live the heap is one free block and the block at the end. */
  lemma NothingLive(bs: seq<Blk>, start: nat, end: nat, h: nat)
    requires Shape(bs, start, end, h) && start + 2 * h <= end && Live(bs, h) == map[]
    ensures bs == [Blk(start, end - start - 2 * h, false), Blk(end - h, 0, true)]
    ensures FreeSum(bs) == end - start - 2 * h
  {
    var cs := [Blk(start, end - start - 2 * h, false), Blk(end - h, 0, true)];
    assert Adjoins(cs, 0, h) && Parted(cs, 0);
    assert cs[..1] == [cs[0]];
    OnePayload(cs[0], h);
    Canonical(bs, cs, start, end, h);
    FreeSumTwo(cs[0], cs[1]);
  }
}
