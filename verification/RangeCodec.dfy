/** The stored form of ranges and other numbers: little-endian bytes. */
module RangeCodec {
  import opened Common
  import opened Ranges

  /** The size of a stored range: four bytes of first block, two of count. */
  const RANGE_SIZE: nat := 6

  function Num(b: Byte): (x: nat)
    ensures x < 256
  {
    b as nat
  }

  function Octet(x: nat): (b: Byte)
    requires x < 256
    ensures Num(b) == x
  {
    if x == 0 then 0 else Octet(x - 1) + 1
  }

  /** Byte j of a stored number. */
  function Digit(v: nat, j: nat): (x: nat)
    requires j < 4
    ensures x < 256
  {
    if j == 0 then v % 256 else if j == 1 then v / 256 % 256 else if j == 2 then v / 65536 % 256 else v / 16777216 % 256
  }

  lemma Digits(v: nat)
    requires v < U32
    ensures Digit(v, 0) + 256 * Digit(v, 1) + 65536 * Digit(v, 2) + 16777216 * Digit(v, 3) == v
    ensures v <= 0xFFFF ==> Digit(v, 0) + 256 * Digit(v, 1) == v
  {
    var a, b, c := v / 256, v / 256 / 256, v / 256 / 256 / 256;
    assert v == 256 * a + v % 256 && a == 256 * b + a % 256 && b == 256 * c + b % 256;
    assert 65536 * b <= v < 65536 * b + 65536 && 16777216 * c <= v < 16777216 * c + 16777216;
    assert v / 65536 == b && v / 16777216 == c;
  }

  function Num32(s: Block): (v: nat)
    requires |s| == 4
    ensures v < U32
  {
    Num(s[0]) + 256 * Num(s[1]) + 65536 * Num(s[2]) + 16777216 * Num(s[3])
  }

  function Num16(s: Block): (v: nat)
    requires |s| == 2
    ensures v <= 0xFFFF
  {
    Num(s[0]) + 256 * Num(s[1])
  }

  function Bytes32(v: nat): (s: Block)
    ensures |s| == 4
  {
    [Octet(Digit(v, 0)), Octet(Digit(v, 1)), Octet(Digit(v, 2)), Octet(Digit(v, 3))]
  }

  lemma RoundTrip32(v: nat)
    requires v < U32
    ensures Num32(Bytes32(v)) == v
  {
    hide Num, Octet, Digit;
    Digits(v);
  }

  function Bytes16(v: nat): (s: Block)
    ensures |s| == 2
  {
    [Octet(Digit(v, 0)), Octet(Digit(v, 1))]
  }

  lemma RoundTrip16(v: nat)
    requires v <= 0xFFFF
    ensures Num16(Bytes16(v)) == v
  {
    hide Num, Octet, Digit;
    Digits(v);
  }

  /** The number that bytes stand for, the lowest first. */
  ghost function Little(s: Block): (v: nat) {
    if s == [] then 0 else Num(s[0]) + 256 * Little(s[1..])
  }

  lemma LittleNum(s: Block)
    ensures |s| == 2 ==> Little(s) == Num16(s)
    ensures |s| == 4 ==> Little(s) == Num32(s)
  {
    if |s| == 2 {
      assert Little(s[1..]) == Num(s[1]) + 256 * Little(s[1..][1..]) && s[1..][1..] == [];
    } else if |s| == 4 {
      var a, b, c := s[1..], s[2..], s[3..];
      assert a[1..] == b && b[1..] == c && c[1..] == [];
      assert Little(c) == Num(s[3]) && Little(b) == Num(s[2]) + 256 * Little(c)
          && Little(a) == Num(s[1]) + 256 * Little(b);
    }
  }

  /** Stored numbers have their lowest byte first. */
  lemma LittleEndian(v: nat)
    ensures v < U32 ==> Little(Bytes32(v)) == v
    ensures v <= 0xFFFF ==> Little(Bytes16(v)) == v
  {
    hide Num32, Num16, Bytes32, Bytes16, Little;
    LittleNum(Bytes32(v));
    LittleNum(Bytes16(v));
    if v < U32 {
      RoundTrip32(v);
    }
    if v <= 0xFFFF {
      RoundTrip16(v);
    }
  }

  /** The bytes of a stored range. */
  function RangeBytes(r: Range): (s: Block)
    ensures |s| == RANGE_SIZE
  {
    Bytes32(r.first) + Bytes16(r.count)
  }

  /** Where a stored range has its numbers. */
  lemma RangeLayout(r: Range)
    requires r.first < U32 && r.count <= 0xFFFF
    ensures var s := RangeBytes(r); Little(s[..4]) == r.first && Little(s[4..6]) == r.count
  {
    hide Bytes32, Bytes16, Little;
    LittleEndian(r.first);
    LittleEndian(r.count);
    assert RangeBytes(r)[..4] == Bytes32(r.first) && RangeBytes(r)[4..6] == Bytes16(r.count);
  }

  /** The range stored at byte k. */
  function RangeAt(s: Block, k: nat): (r: Range)
    requires k + RANGE_SIZE <= |s|
    ensures r.first < U32 && r.count <= 0xFFFF
  {
    Range(Num32(s[k..k + 4]), Num16(s[k + 4..k + 6]))
  }

  /** The ranges stored in a block. */
  function Decode(s: Block): (rs: seq<Range>)
    ensures |rs| == |s| / RANGE_SIZE
    ensures forall i :: 0 <= i < |rs| ==> rs[i].first < U32 && rs[i].count <= 0xFFFF
  {
    seq(|s| / RANGE_SIZE, i requires 0 <= i < |s| / RANGE_SIZE => RangeAt(s, RANGE_SIZE * i))
  }

  /** A block with its ranges replaced; bytes behind the last whole range stay. */
  function Encode(s: Block, rs: seq<Range>): (r: Block)
    requires |rs| == |s| / RANGE_SIZE
    ensures |r| == |s|
  {
    seq(|s|, k requires 0 <= k < |s| =>
        if k / RANGE_SIZE < |rs| then RangeBytes(rs[k / RANGE_SIZE])[k % RANGE_SIZE] else s[k])
  }

  /** Range i of a block of ranges is at byte 6 * i. */
  lemma EncodeLayout(s: Block, rs: seq<Range>, i: nat)
    requires |rs| == |s| / RANGE_SIZE && i < |rs|
    ensures Encode(s, rs)[RANGE_SIZE * i..RANGE_SIZE * i + RANGE_SIZE] == RangeBytes(rs[i])
  {
    hide RangeBytes;
    var r, b := Encode(s, rs)[RANGE_SIZE * i..RANGE_SIZE * i + RANGE_SIZE], RangeBytes(rs[i]);
    forall k | 0 <= k < RANGE_SIZE
      ensures r[k] == b[k]
    {
      DivMod(i, k, RANGE_SIZE);
    }
  }

  lemma RangeRoundTrip(s: Block, k: nat, r: Range)
    requires k + RANGE_SIZE <= |s| && r.first < U32 && r.count <= 0xFFFF
    requires s[k..k + RANGE_SIZE] == RangeBytes(r)
    ensures RangeAt(s, k) == r
  {
    RoundTrip32(r.first);
    RoundTrip16(r.count);
    assert s[k..k + 4] == RangeBytes(r)[..4] == Bytes32(r.first);
    assert s[k + 4..k + 6] == RangeBytes(r)[4..] == Bytes16(r.count);
  }

  /** Storing ranges and reading them back. */
  lemma DecodeEncode(s: Block, rs: seq<Range>)
    requires |rs| == |s| / RANGE_SIZE
    requires forall i :: 0 <= i < |rs| ==> rs[i].first < U32 && rs[i].count <= 0xFFFF
    ensures Decode(Encode(s, rs)) == rs
  {
    hide RangeBytes, RangeAt;
    var e := Encode(s, rs);
    forall i | 0 <= i < |rs|
      ensures RangeAt(e, RANGE_SIZE * i) == rs[i]
    {
      var t := e[RANGE_SIZE * i..RANGE_SIZE * i + RANGE_SIZE];
      forall j | 0 <= j < RANGE_SIZE
        ensures t[j] == RangeBytes(rs[i])[j]
      {
        assert (RANGE_SIZE * i + j) / RANGE_SIZE == i && (RANGE_SIZE * i + j) % RANGE_SIZE == j;
      }
      RangeRoundTrip(e, RANGE_SIZE * i, rs[i]);
    }
  }

  /** A wiped block holds no ranges. */
  lemma DecodeZeros(n: nat)
    ensures forall i :: 0 <= i < |Decode(Zeros(n))| ==> Decode(Zeros(n))[i] == EMPTY
    ensures Shaped(Decode(Zeros(n))) && Flat(Decode(Zeros(n))) == [] && Depth(Decode(Zeros(n))) == 0
  {
    assert Num(0) == 0;
    DepthIs(Decode(Zeros(n)), 0);
  }
}
