/** The bytes of a list of blocks, and what a chunk read or written in one block is in that list. */
module FileBytes {
  import opened Common
  import opened RawBlocks
  import opened FileLayout

  ghost predicate Within(blocks: seq<nat>, n: nat) {
    forall i :: 0 <= i < |blocks| ==> blocks[i] < n
  }

  lemma {:induction false} JoinedConcat(view: seq<Block>, a: seq<nat>, b: seq<nat>)
    ensures Joined(view, a + b) == Joined(view, a) + Joined(view, b)
  {
    if a == [] {
      assert a + b == b;
    } else {
      assert (a + b)[1..] == a[1..] + b;
      JoinedConcat(view, a[1..], b);
    }
  }

  lemma {:induction false} JoinedLength(view: seq<Block>, blocks: seq<nat>, size: nat)
    requires Sized(view, size) && Within(blocks, |view|)
    ensures |Joined(view, blocks)| == |blocks| * size
  {
    if blocks != [] {
      JoinedLength(view, blocks[1..], size);
      assert (|blocks| - 1) * size + size == |blocks| * size;
    }
  }

  /** The list splits around block q, which starts at byte q * size. */
  lemma JoinedSplit(view: seq<Block>, blocks: seq<nat>, q: nat, size: nat)
    requires Sized(view, size) && Within(blocks, |view|) && q < |blocks|
    ensures Joined(view, blocks) == Joined(view, blocks[..q]) + view[blocks[q]] + Joined(view, blocks[q + 1..])
    ensures |Joined(view, blocks[..q])| == q * size && |view[blocks[q]]| == size
  {
    var a, m, b := blocks[..q], [blocks[q]], blocks[q + 1..];
    assert blocks == a + (m + b);
    JoinedConcat(view, a, m + b);
    JoinedConcat(view, m, b);
    assert Joined(view, m) == view[blocks[q]] + Joined(view, m[1..]);
    JoinedLength(view, a, size);
  }

  lemma Middle(a: Block, m: Block, b: Block, off: nat, len: nat)
    requires off + len <= |m|
    ensures (a + m + b)[|a| + off..|a| + off + len] == m[off..off + len]
  {
  }

  /** A piece of block q is the piece of the list at the same place. */
  lemma ChunkRead(view: seq<Block>, blocks: seq<nat>, q: nat, off: nat, len: nat, size: nat)
    requires Sized(view, size) && Within(blocks, |view|) && q < |blocks| && off + len <= size
    ensures |view[blocks[q]]| == size && q * size + off + len <= |Joined(view, blocks)|
    ensures Joined(view, blocks)[q * size + off..q * size + off + len] == view[blocks[q]][off..off + len]
  {
    JoinedSplit(view, blocks, q, size);
    Middle(Joined(view, blocks[..q]), view[blocks[q]], Joined(view, blocks[q + 1..]), off, len);
  }

  lemma SpliceMiddle(a: Block, m: Block, b: Block, off: nat, buf: Block)
    requires off + |buf| <= |m|
    ensures a + Splice(m, off, buf) + b == Splice(a + m + b, |a| + off, buf)
  {
  }

  lemma SpliceLength(m: Block, off: nat, buf: Block)
    requires off + |buf| <= |m|
    ensures |Splice(m, off, buf)| == |m|
  {
  }

  /** Rewriting a piece of block q rewrites that piece of the list and nothing else. */
  lemma ChunkWritten(view: seq<Block>, blocks: seq<nat>, q: nat, off: nat, buf: Block, size: nat)
    requires Sized(view, size) && Within(blocks, |view|) && q < |blocks| && off + |buf| <= size && Distinct(blocks)
    ensures |view[blocks[q]]| == size && q * size + off + |buf| <= |Joined(view, blocks)|
    ensures Joined(view[blocks[q] := Splice(view[blocks[q]], off, buf)], blocks) ==
              Splice(Joined(view, blocks), q * size + off, buf)
  {
    hide Joined, Splice;
    var view' := view[blocks[q] := Splice(view[blocks[q]], off, buf)];
    var a, b := blocks[..q], blocks[q + 1..];
    SpliceLength(view[blocks[q]], off, buf);
    JoinedSplit(view, blocks, q, size);
    JoinedSplit(view', blocks, q, size);
    JoinedFrame(view, view', a);
    JoinedFrame(view, view', b);
    SpliceMiddle(Joined(view, a), view[blocks[q]], Joined(view, b), off, buf);
  }

  /** The content c with d written at pos, which grows it if need be. */
  function Overwrite(c: Block, pos: nat, d: Block): (r: Block)
    requires pos <= |c|
    ensures |r| == if pos + |d| <= |c| then |c| else pos + |d|
  {
    c[..pos] + d + if pos + |d| <= |c| then c[pos + |d|..] else []
  }

  lemma OverwriteNothing(c: Block, pos: nat)
    requires pos <= |c|
    ensures Overwrite(c, pos, []) == c
  {
  }

  /** Writing in two pieces is writing at once. */
  lemma OverwriteTwice(c: Block, pos: nat, d: Block, e: Block)
    requires pos <= |c|
    ensures Overwrite(Overwrite(c, pos, d), pos + |d|, e) == Overwrite(c, pos, d + e)
  {
  }

  /** Cutting a spliced list at the new size is overwriting the list cut at the old size. */
  lemma SpliceIsOverwrite(all: Block, size: nat, pos: nat, d: Block)
    requires pos <= size <= |all| && pos + |d| <= |all|
    ensures var size' := if pos + |d| <= size then size else pos + |d|;
            Splice(all, pos, d)[..size'] == Overwrite(all[..size], pos, d)
  {
  }
}
