/** Whole runs of the block cache, against a plain array of blocks. */
module CacheRuns {
  import opened Common
  import opened BlockCaches
  import RawBlocks

  datatype Request =
    | Access(op: Op, no: nat, offset: nat, buffer: Block, length: nat)
    | Flush

  datatype Reply = Reply(st: Status, out: Block)

  /** Sector numbers and offsets stay in 32 bits, and a write brings as many bytes as it says. */
  ghost predicate WellPosed(r: Request, perBlock: nat) {
    r.Access? ==>
      && r.no * perBlock + perBlock <= U32
      && r.offset + r.length < U32
      && (r.op == Write ==> |r.buffer| == r.length)
  }

  ghost predicate InBounds(view: seq<Block>, r: Request) {
    r.Access? && r.no < |view| && r.offset + r.length <= |view[r.no]| && (r.op == Write ==> |r.buffer| == r.length)
  }

  /** A plain array of blocks after one request. */
  ghost function Array(view: seq<Block>, r: Request): (after: seq<Block>) {
    if InBounds(view, r) then Updated(view, r.op, r.no, r.offset, r.buffer) else view
  }

  /** What a plain array of blocks answers. */
  ghost function Answer(view: seq<Block>, r: Request): (reply: Reply) {
    if r.Flush? then Reply(Ok, [])
    else if !InBounds(view, r) then Reply(ErrOutOfBounds, [])
    else Reply(Ok, if r.op == Read then view[r.no][r.offset..r.offset + r.length] else [])
  }

  /** The array after the first n requests. */
  ghost function ArrayAfter(view: seq<Block>, rs: seq<Request>, n: nat): (after: seq<Block>)
    requires n <= |rs|
  {
    if n == 0 then view else Array(ArrayAfter(view, rs, n - 1), rs[n - 1])
  }

  ghost predicate IsAstray(r: Request, blocks: nat) {
    r.Access? && r.no >= blocks
  }

  /** How many of the first n requests name a block outside the device. */
  ghost function Astray(rs: seq<Request>, blocks: nat, n: nat): (r: nat)
    requires n <= |rs|
  {
    if n == 0 then 0 else Astray(rs, blocks, n - 1) + if IsAstray(rs[n - 1], blocks) then 1 else 0
  }

  lemma {:induction false} AstrayMonotonic(rs: seq<Request>, blocks: nat, m: nat, n: nat)
    requires m <= n <= |rs|
    ensures Astray(rs, blocks, m) <= Astray(rs, blocks, n)
  {
    if m < n {
      AstrayMonotonic(rs, blocks, m, n - 1);
    }
  }

  /** One request answers and updates like the plain array. */
  method Serve(cache: BlockCache, r: Request) returns (reply: Reply)
    requires cache.Valid() && cache.Resident() && cache.Lost() < cache.slots
    requires WellPosed(r, cache.raw.perBlock)
    modifies cache, cache.raw, cache.raw.device, cache.lru, cache.hash
    ensures cache.Valid() && cache.Resident()
    ensures cache.view == Array(old(cache.view), r) && |cache.view| == |old(cache.view)|
    ensures reply == Answer(old(cache.view), r)
    ensures cache.Lost() == old(cache.Lost()) + if IsAstray(r, |cache.view|) then 1 else 0
  {
    hide RawBlocks.RawStore.Valid, BlockCache.Structure, Recent, Mirrors, BlockCache.Resident;
    cache.ServesEveryBlock();
    match r {
      case Flush =>
        var st := cache.Flush();
        reply := Reply(st, []);
      case Access(op, no, offset, buffer, length) =>
        assert cache.CanServe(no);
        var st, out := cache.Io(op, no, offset, buffer, length);
        reply := Reply(st, out);
    }
  }

  /** The first n requests were answered by a plain array of blocks, which is now view. */
  ghost predicate Explained(v0: seq<Block>, rs: seq<Request>, replies: seq<Reply>, n: nat, view: seq<Block>) {
    && |replies| == n <= |rs| && view == ArrayAfter(v0, rs, n)
    && forall i :: 0 <= i < n ==> replies[i] == Answer(ArrayAfter(v0, rs, i), rs[i])
  }

  lemma NothingAsked(v0: seq<Block>, rs: seq<Request>)
    ensures Explained(v0, rs, [], 0, v0)
  {
  }

  lemma OneMore(v0: seq<Block>, rs: seq<Request>, replies: seq<Reply>, n: nat, view: seq<Block>)
    requires n < |rs| && Explained(v0, rs, replies, n, view)
    ensures Explained(v0, rs, replies + [Answer(view, rs[n])], n + 1, Array(view, rs[n]))
  {
    hide Answer, Array;
  }

  /**
   * Any run of requests, whatever evictions it causes, answers like a plain array of blocks, as long
   * as each request finds a slot in service. A request outside the device takes one out of service,
   * and the run leaves a cache that serves every block or none.
   */
  method Run(cache: BlockCache, rs: seq<Request>) returns (replies: seq<Reply>)
    requires cache.Valid() && cache.Resident()
    requires forall i :: 0 <= i < |rs| ==> WellPosed(rs[i], cache.raw.perBlock)
    requires rs != [] ==> cache.Lost() + Astray(rs, |cache.view|, |rs| - 1) < cache.slots
    modifies cache, cache.raw, cache.raw.device, cache.lru, cache.hash
    ensures cache.Valid() && cache.Resident()
    ensures cache.Lost() == old(cache.Lost()) + Astray(rs, |old(cache.view)|, |rs|)
    ensures Explained(old(cache.view), rs, replies, |rs|, cache.view)
    ensures forall no: nat :: cache.CanServe(no) <==>
              old(cache.Lost()) + Astray(rs, |old(cache.view)|, |rs|) < cache.slots
  {
    hide BlockCache.Valid, BlockCache.Resident, BlockCache.Lost;
    hide BlockCache.CanServe, Array, Answer, WellPosed, IsAstray, Explained;
    replies := [];
    NothingAsked(cache.view, rs);
    ghost var v0 := cache.view;
    for i := 0 to |rs|
      invariant cache.Valid() && cache.Resident() && |cache.view| == |v0|
      invariant cache.Lost() == old(cache.Lost()) + Astray(rs, |v0|, i)
      invariant Explained(v0, rs, replies, i, cache.view)
    {
      AstrayMonotonic(rs, |v0|, i, |rs| - 1);
      OneMore(v0, rs, replies, i, cache.view);
      var reply := Serve(cache, rs[i]);
      replies := replies + [reply];
    }
    cache.ServesEveryBlock();
  }

  lemma {:induction false} AllAstray(view: seq<Block>, rs: seq<Request>, n: nat)
    requires n <= |rs| && forall i :: 0 <= i < |rs| ==> IsAstray(rs[i], |view|)
    ensures Astray(rs, |view|, n) == n && ArrayAfter(view, rs, n) == view
  {
    if n > 0 {
      AllAstray(view, rs, n - 1);
    }
  }

  /**
   * Reading a block outside the device as often as there are slots left gets an error each time and
   * changes no block, but then no block can be served any more, although the cache is consistent.
   */
  method WearOut(cache: BlockCache, no: nat, times: nat) returns (replies: seq<Reply>)
    requires cache.Valid() && cache.Resident() && cache.Lost() + times == cache.slots
    requires |cache.view| <= no && no * cache.raw.perBlock + cache.raw.perBlock <= U32
    modifies cache, cache.raw, cache.raw.device, cache.lru, cache.hash
    ensures |replies| == times && forall i :: 0 <= i < times ==> replies[i] == Reply(ErrOutOfBounds, [])
    ensures cache.Valid() && cache.view == old(cache.view) && forall b: nat :: !cache.CanServe(b)
  {
    hide BlockCache.Valid, BlockCache.Resident, BlockCache.Lost, BlockCache.CanServe;
    ghost var view := cache.view;
    var rs := seq(times, _ => Access(Op.Read, no, 0, [], 1));
    AllAstray(view, rs, times);
    if times > 0 {
      AllAstray(view, rs, times - 1);
    }
    replies := Run(cache, rs);
    forall i | 0 <= i < times
      ensures replies[i] == Reply(ErrOutOfBounds, [])
    {
      AllAstray(view, rs, i);
    }
  }
}
