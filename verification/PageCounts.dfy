/** How many free pages there are, and how many mapping takes. */
module PageCounts {
  import opened Common
  import opened PhysicalPages
  import opened PageTables

  /** Pages the caller asks for lie above the first megabyte. */
  const FIRST_DATA_ADDRESS: Word := 0x10_0000
  const FIRST_DATA_PAGE: nat := 256

  ghost function FreePages(used: set<nat>, lo: nat, hi: nat): (ps: set<nat>) {
    set p: nat | lo <= p < hi && p !in used
  }

  lemma NoneFree(used: set<nat>, lo: nat, hi: nat)
    ensures FreePages(used, lo, hi) == {} <==> forall p: nat :: lo <= p < hi ==> p in used
  {
    if FreePages(used, lo, hi) == {} {
      forall p: nat | lo <= p < hi
        ensures p in used
      {
        assert p !in FreePages(used, lo, hi);
      }
    }
  }

  lemma OneTaken(used: set<nat>, lo: nat, hi: nat, p: nat)
    requires p !in used
    ensures |FreePages(used + {p}, lo, hi)| == |FreePages(used, lo, hi)| - if lo <= p < hi then 1 else 0
  {
    var before, after := FreePages(used, lo, hi), FreePages(used + {p}, lo, hi);
    if lo <= p < hi {
      assert after == before - {p};
    } else {
      assert after == before;
    }
  }

  /** The free pages below the first data page, where only tables and directories go, and from it on. */
  ghost function Low(used: set<nat>): (n: nat) {
    |FreePages(used, 0, FIRST_DATA_PAGE)|
  }

  ghost function High(used: set<nat>): (n: nat) {
    |FreePages(used, FIRST_DATA_PAGE, PAGES)|
  }

  /** The tables that do not find room below the first data page. */
  function Over(low: nat, tables: nat): (n: nat) {
    if tables <= low then 0 else tables - low
  }

  /** The free pages are enough for so many data pages and tables. */
  ghost predicate Suffice(used: set<nat>, data: nat, tables: nat) {
    data + Over(Low(used), tables) <= High(used)
  }

  /** So many data pages and tables have been taken. */
  ghost predicate Spent(used: set<nat>, used': set<nat>, data: nat, tables: nat) {
    && Low(used') == (if tables <= Low(used) then Low(used) - tables else 0)
    && High(used') + data + Over(Low(used), tables) == High(used)
  }

  lemma NoneSpent(used: set<nat>)
    ensures Suffice(used, 0, 0) && Spent(used, used, 0, 0)
  {
  }

  /** The first free page is taken for a table. */
  lemma TableSpent(used: set<nat>, p: nat)
    requires p < PAGES && p !in used && forall q :: 0 <= q < p ==> q in used
    ensures Suffice(used, 0, 1) && Spent(used, used + {p}, 0, 1)
  {
    hide FreePages;
    OneTaken(used, 0, FIRST_DATA_PAGE, p);
    OneTaken(used, FIRST_DATA_PAGE, PAGES, p);
    if p >= FIRST_DATA_PAGE {
      NoneFree(used, 0, FIRST_DATA_PAGE);
    }
  }

  lemma DataSpent(used: set<nat>, p: nat)
    requires FIRST_DATA_PAGE <= p < PAGES && p !in used
    ensures Suffice(used, 1, 0) && Spent(used, used + {p}, 1, 0)
  {
    hide FreePages;
    OneTaken(used, 0, FIRST_DATA_PAGE, p);
    OneTaken(used, FIRST_DATA_PAGE, PAGES, p);
  }

  /** All pages, or all that a caller can be given, are used. */
  lemma NothingLeft(used: set<nat>)
    ensures (forall q: nat :: q < PAGES ==> q in used) <==> !Suffice(used, 0, 1)
    ensures (forall q: nat :: FIRST_DATA_PAGE <= q < PAGES ==> q in used) <==> !Suffice(used, 1, 0)
  {
    hide FreePages;
    NoneFree(used, 0, FIRST_DATA_PAGE);
    NoneFree(used, FIRST_DATA_PAGE, PAGES);
  }

  lemma FewerSuffice(used: set<nat>, data: nat, tables: nat, tables': nat)
    requires tables <= tables'
    ensures Suffice(used, data, tables') ==> Suffice(used, data, tables)
  {
    hide Low, High;
  }

  lemma SpentSuffices(used: set<nat>, used': set<nat>, data: nat, tables: nat)
    requires Spent(used, used', data, tables)
    ensures Suffice(used, data, tables)
  {
    hide Low, High;
  }

  /** What is left suffices for more exactly when all suffices for both. */
  lemma SpentSteps(used: set<nat>, used': set<nat>, data: nat, tables: nat, data': nat, tables': nat)
    requires Spent(used, used', data, tables)
    ensures Suffice(used', data', tables') <==> Suffice(used, data + data', tables + tables')
    ensures forall used'' :: Spent(used', used'', data', tables') ==>
              Spent(used, used'', data + data', tables + tables')
  {
    hide Low, High;
  }

  /** There is a table for directory entry i because of a virtual page in [from, to). */
  predicate NeedsTable(from: nat, to: nat, i: int) {
    from < to && from / ENTRIES <= i <= (to - 1) / ENTRIES
  }

  lemma NeedsNone(from: nat)
    ensures forall i :: !NeedsTable(from, from, i)
  {
  }

  lemma NeedsOneMore(from: nat, v: nat, i: int)
    requires from <= v
    ensures NeedsTable(from, v + 1, i) <==> NeedsTable(from, v, i) || i == v / ENTRIES
  {
  }

  /** The directory entries without a table that the virtual pages of [from, to) need one for. */
  ghost function Missing(mem: Ram, dir: nat, from: nat, to: nat): (r: set<nat>)
    requires dir < PAGES
  {
    set i: nat | i < ENTRIES && NeedsTable(from, to, i) && Table(mem, dir, i) == None
  }

  /** There are tables for the entries that had one, and for those that the virtual pages of [from, to) need. */
  ghost predicate Tabled(mem: Ram, mem': Ram, dir: nat, from: nat, to: nat)
    requires dir < PAGES
  {
    forall i: nat :: i < ENTRIES ==>
      (Table(mem', dir, i).Some? <==> Table(mem, dir, i).Some? || NeedsTable(from, to, i))
  }

  lemma NoneMissing(mem: Ram, dir: nat, from: nat)
    requires dir < PAGES
    ensures Missing(mem, dir, from, from) == {} && Tabled(mem, mem, dir, from, from)
  {
    NeedsNone(from);
  }

  /** One more virtual page needs one more table, unless its table is there. */
  lemma OneMoreMissing(mem: Ram, mem': Ram, dir: nat, from: nat, v: nat)
    requires dir < PAGES && from <= v < PAGES && Tabled(mem, mem', dir, from, v)
    ensures |Missing(mem, dir, from, v + 1)| ==
              |Missing(mem, dir, from, v)| + if Table(mem', dir, v / ENTRIES).Some? then 0 else 1
  {
    hide NeedsTable;
    var i := v / ENTRIES;
    var before, after := Missing(mem, dir, from, v), Missing(mem, dir, from, v + 1);
    forall k: nat | k < ENTRIES
      ensures NeedsTable(from, v + 1, k) <==> NeedsTable(from, v, k) || k == i
    {
      NeedsOneMore(from, v, k);
    }
    if Table(mem', dir, i).Some? {
      assert after == before;
    } else {
      assert after == before + {i} && i !in before;
    }
  }

  /** Free pages that do not suffice for the first pages of a range do not suffice for the range. */
  lemma StillMissing(mem: Ram, dir: nat, from: nat, v: nat, to: nat, used: set<nat>, data: nat, data': nat)
    requires dir < PAGES && from <= v <= to && data <= data' && !Suffice(used, data, |Missing(mem, dir, from, v)|)
    ensures !Suffice(used, data', |Missing(mem, dir, from, to)|)
  {
    SubsetSize(Missing(mem, dir, from, v), Missing(mem, dir, from, to));
    hide Low, High;
  }

  lemma TabledStep(mem: Ram, mem': Ram, mem'': Ram, dir: nat, from: nat, v: nat)
    requires dir < PAGES && from <= v < PAGES && Tabled(mem, mem', dir, from, v) && Table(mem'', dir, v / ENTRIES).Some?
    requires forall k: nat :: k < ENTRIES && k != v / ENTRIES ==> Table(mem'', dir, k) == Table(mem', dir, k)
    ensures Tabled(mem, mem'', dir, from, v + 1)
  {
    hide NeedsTable;
    forall k: nat | k < ENTRIES
      ensures Table(mem'', dir, k).Some? <==> Table(mem, dir, k).Some? || NeedsTable(from, v + 1, k)
    {
      NeedsOneMore(from, v, k);
    }
  }

  ghost function Places(lo: nat, hi: nat): (r: set<nat>)
    ensures forall i :: i in r <==> lo <= i < hi
    ensures |r| == if lo <= hi then hi - lo else 0
  {
    if hi <= lo then {} else Places(lo, hi - 1) + {hi - 1}
  }

  /** A blank directory lacks all tables of a range. */
  lemma AllMissing(mem: Ram, dir: nat, from: nat, to: nat)
    requires dir < PAGES && from < to <= PAGES && mem[dir] == Blank()
    ensures |Missing(mem, dir, from, to)| == (to - 1) / ENTRIES - from / ENTRIES + 1
  {
    var lo, hi := from / ENTRIES, (to - 1) / ENTRIES + 1;
    assert Missing(mem, dir, from, to) == Places(lo, hi);
  }
}
