/** Status codes, bytes and small facts shared by the file system modules. */
module Common {
  type Byte = bv8
  type Block = seq<Byte>

  /** The null pointer of a pointer that is modelled as an index. */
  const NIL: int := -1

  /** The range of the source's unsigned 32-bit counters. */
  const U32: nat := 0x1_0000_0000

  datatype Option<+T> = None | Some(value: T)

  datatype Status =
    | Ok
    | ErrNotSupported
    | ErrOutOfBounds
    | ErrResourcesExhausted
    | ErrNotFound
    | ErrEndOfFile
    | ErrAlreadyExists
    | ErrCorruption
    | ErrNotRecognized
    | ErrNotPermitted
    | DoubleIndirectNeeded // where the source would start a double indirect block

  /** A block of n zero bytes. */
  function Zeros(n: nat): (z: Block)
    ensures |z| == n
  {
    seq(n, _ => 0)
  }

  /** s with the bytes from off on replaced by those of buf. */
  function Splice(s: Block, off: nat, buf: Block): (r: Block)
    requires off + |buf| <= |s|
    ensures |r| == |s|
  {
    s[..off] + buf + s[off + |buf|..]
  }

  lemma SpliceWhole(s: Block, buf: Block)
    requires |s| == |buf|
    ensures Splice(s, 0, buf) == buf
  {
  }

  ghost predicate Distinct<T>(s: seq<T>) {
    forall i, j :: 0 <= i < j < |s| ==> s[i] != s[j]
  }

  ghost function Elems<T>(s: seq<T>): (xs: set<T>) {
    set x | x in s
  }

  lemma Associative<T>(a: seq<T>, b: seq<T>, c: seq<T>)
    ensures a + b + c == a + (b + c)
  {
  }

  lemma {:induction false} SubsetSize(a: set<nat>, b: set<nat>)
    requires a <= b
    ensures |a| <= |b|
  {
    if a != {} {
      var x :| x in a;
      SubsetSize(a - {x}, b - {x});
    }
  }

  lemma {:induction false} DistinctSize(s: seq<nat>)
    requires Distinct(s)
    ensures |Elems(s)| == |s|
  {
    if s != [] {
      DistinctSize(s[1..]);
      assert Elems(s) == Elems(s[1..]) + {s[0]};
    }
  }

  /** Position q * d + r decomposes uniquely. */
  lemma DivMod(q: nat, r: nat, d: nat)
    requires r < d
    ensures (q * d + r) / d == q && (q * d + r) % d == r
  {
    var k := q * d + r;
    var a, b := k / d, k % d;
    assert k == a * d + b;
    assert a < q ==> (a + 1) * d <= q * d;
    assert a > q ==> (q + 1) * d <= a * d;
  }

  /** Where position pos lies in blocks of d bytes. */
  lemma Split(pos: nat, d: nat)
    requires 0 < d
    ensures 0 <= pos / d && 0 <= pos % d < d && pos == pos / d * d + pos % d
  {
  }

  lemma MulMono(a: nat, b: nat, d: nat)
    requires a <= b
    ensures a * d <= b * d
  {
  }
}
