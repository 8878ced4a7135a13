/** The recency order of an access history, independent of any cache. */
module Recency {
  import opened Common

  /** s without the value x. */
  ghost function Without<T(!new)>(s: seq<T>, x: T): (r: seq<T>)
    ensures forall y :: y in r <==> y in s && y != x
    ensures |r| <= |s|
    ensures x !in s ==> r == s
  {
    if s == [] then [] else if s[0] == x then Without(s[1..], x) else [s[0]] + Without(s[1..], x)
  }

  /** The distinct blocks of a history, the most recently accessed first. */
  ghost function Mru(history: seq<nat>): (r: seq<nat>)
    ensures forall b :: b in r <==> b in history
  {
    if history == [] then []
    else
      var n := |history| - 1;
      assert forall b :: b in history <==> b in history[..n] || b == history[n];
      [history[n]] + Without(Mru(history[..n]), history[n])
  }

  /** The position of the last access to b. */
  ghost function LastAccess(history: seq<nat>, b: nat): (r: nat)
    requires b in history
    ensures r < |history| && history[r] == b
    ensures forall i :: r < i < |history| ==> history[i] != b
  {
    var n := |history| - 1;
    if history[n] == b then n else LastAccess(history[..n], b)
  }

  lemma {:induction false} WithoutConcat<T(!new)>(s: seq<T>, t: seq<T>, x: T)
    ensures Without(s + t, x) == Without(s, x) + Without(t, x)
  {
    if s == [] {
      assert s + t == t;
    } else {
      assert (s + t)[1..] == s[1..] + t;
      WithoutConcat(s[1..], t, x);
    }
  }

  lemma WithoutHead<T(!new)>(x: T, b: seq<T>)
    ensures Without([x] + b, x) == Without(b, x)
  {
    assert ([x] + b)[1..] == b;
  }

  lemma OnceOnly<T(!new)>(s: seq<T>, k: nat)
    requires k < |s| && Distinct(s)
    ensures s[k] !in s[..k] && s[k] !in s[k + 1..]
  {
  }

  /** Removing the one occurrence of x by position. */
  lemma WithoutAt<T(!new)>(s: seq<T>, k: nat)
    requires k < |s| && Distinct(s)
    ensures Without(s, s[k]) == s[..k] + s[k + 1..]
  {
    hide Without, Distinct;
    var a, x, b := s[..k], s[k], s[k + 1..];
    assert s == a + ([x] + b);
    WithoutConcat(a, [x] + b, x);
    WithoutHead(x, b);
    OnceOnly(s, k);
  }

  /** A new access moves its block to the front. */
  lemma MruAccess(history: seq<nat>, b: nat)
    ensures Mru(history + [b]) == [b] + Without(Mru(history), b)
  {
    assert (history + [b])[..|history|] == history;
  }

  /** Removal keeps prefixes. */
  lemma WithoutPrefix(p: seq<nat>, m: seq<nat>, b: nat)
    requires p <= m
    ensures Without(p, b) <= Without(m, b)
  {
    assert m == p + m[|p|..];
    WithoutConcat(p, m[|p|..], b);
  }

  lemma {:induction false} WithoutOnce<T(!new)>(s: seq<T>, x: T)
    requires Distinct(s)
    ensures Distinct(Without(s, x))
    ensures |Without(s, x)| == |s| - if x in s then 1 else 0
  {
    if x in s {
      var k :| 0 <= k < |s| && s[k] == x;
      WithoutAt(s, k);
    }
  }

  lemma {:induction false} MruDistinct(history: seq<nat>)
    ensures Distinct(Mru(history))
  {
    if history != [] {
      var n := |history| - 1;
      MruDistinct(history[..n]);
      WithoutOnce(Mru(history[..n]), history[n]);
    }
  }

  /** Accessing a block outside a prefix of the recency list puts it in front of the prefix. */
  lemma Pushed(p: seq<nat>, m: seq<nat>, b: nat)
    requires p <= m && b !in p
    ensures [b] + p <= [b] + Without(m, b)
    ensures |p| == |m| ==> |Without(m, b)| == |m|
  {
    WithoutPrefix(p, m, b);
  }

  /** LastAccess seen from a longer history. */
  lemma LastAccessExtend(history: seq<nat>, b: nat, x: nat)
    requires x in history
    ensures x in history + [b]
    ensures LastAccess(history + [b], x) == if x == b then |history| else LastAccess(history, x)
  {
    assert (history + [b])[..|history|] == history;
  }

  lemma {:induction false} WithoutOrder(s: seq<nat>, x: nat, i: nat, j: nat)
    requires i < j < |Without(s, x)|
    ensures exists p, q :: 0 <= p < q < |s| && s[p] == Without(s, x)[i] && s[q] == Without(s, x)[j]
  {
    var t := s[1..];
    if s[0] == x {
      WithoutOrder(t, x, i, j);
      var p, q :| 0 <= p < q < |t| && t[p] == Without(t, x)[i] && t[q] == Without(t, x)[j];
      assert s[p + 1] == Without(s, x)[i] && s[q + 1] == Without(s, x)[j];
    } else if i > 0 {
      WithoutOrder(t, x, i - 1, j - 1);
      var p, q :| 0 <= p < q < |t| && t[p] == Without(t, x)[i - 1] && t[q] == Without(t, x)[j - 1];
      assert s[p + 1] == Without(s, x)[i] && s[q + 1] == Without(s, x)[j];
    } else {
      assert Without(s, x)[j] in t;
      var q :| 0 <= q < |t| && t[q] == Without(s, x)[j];
      assert s[0] == Without(s, x)[0] && s[q + 1] == Without(s, x)[j];
    }
  }

  /** The recency list is strictly ordered by last access. */
  lemma MruHead(history: seq<nat>)
    requires history != []
    ensures Mru(history) != [] && Mru(history)[0] == history[|history| - 1]
  {
  }

  lemma MruTail(history: seq<nat>, i: nat)
    requires 0 < i < |Mru(history)|
    ensures history != []
    ensures Mru(history)[i] in history[..|history| - 1] && Mru(history)[i] != history[|history| - 1]
    ensures i - 1 < |Without(Mru(history[..|history| - 1]), history[|history| - 1])|
    ensures Mru(history)[i] == Without(Mru(history[..|history| - 1]), history[|history| - 1])[i - 1]
  {
    var w := Without(Mru(history[..|history| - 1]), history[|history| - 1]);
    assert w[i - 1] in w;
  }

  lemma {:induction false} MruByLastAccess(history: seq<nat>, i: nat, j: nat)
    requires i < j < |Mru(history)|
    ensures Mru(history)[i] in history && Mru(history)[j] in history
    ensures LastAccess(history, Mru(history)[i]) > LastAccess(history, Mru(history)[j])
  {
    hide Mru, Without;
    MruTail(history, j);
    MruHead(history);
    var n := |history| - 1;
    var h, b := history[..n], history[n];
    var x, y := Mru(history)[i], Mru(history)[j];
    assert history == h + [b];
    assert x in Mru(history) && y in Mru(history);
    LastAccessExtend(h, b, y);
    if i > 0 {
      MruTail(history, i);
      LastAccessExtend(h, b, x);
      WithoutOrder(Mru(h), b, i - 1, j - 1);
      var p, q :| 0 <= p < q < |Mru(h)| && Mru(h)[p] == x && Mru(h)[q] == y;
      MruByLastAccess(h, p, q);
    }
  }
}
