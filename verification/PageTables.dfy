/** Page directories and page tables as words in physical memory, and the translation they stand for. */
module PageTables {
  import opened Common
  import opened PhysicalPages

  const ENTRIES: nat := 1024

  /** A page read as words; physical memory as pages. */
  type Page = s: seq<Word> | |s| == ENTRIES witness seq(ENTRIES, _ => 0)
  function Blank(): (p: Page)
    ensures forall j :: 0 <= j < ENTRIES ==> p[j] == 0
  {
    seq(ENTRIES, _ => 0)
  }

  type Ram = m: seq<Page> | |m| == PAGES witness seq<Page>(PAGES, _ => Blank())

  function Flag(b: bool, weight: nat): (r: nat) {
    if b then weight else 0
  }

  predicate IsEntryPresent(e: Word) {
    e % 2 == 1
  }

  function GetEntryAddress(e: Word): (a: Word) {
    e - e % PAGE_SIZE
  }

  /** A page in the upper bits of a word, flags in the lower twelve. */
  function Packed(address: Word, flags: nat): (e: Word)
    requires flags < PAGE_SIZE
    ensures GetEntryAddress(e) == address - address % PAGE_SIZE && (IsEntryPresent(e) <==> flags % 2 == 1)
  {
    address - address % PAGE_SIZE + flags
  }

  /** The bit of a word with that weight. */
  predicate Bit(e: nat, weight: nat)
    requires 0 < weight
  {
    e / weight % 2 == 1
  }

  lemma BitAt(q: nat, low: nat, weight: nat)
    requires low < weight
    ensures Bit(q * weight + low, weight) <==> q % 2 == 1
  {
    DivMod(q, low, weight);
  }

  lemma BitAbove(a: nat, low: nat, weight: nat)
    requires 0 < weight
    ensures Bit(2 * weight * a + low, weight) == Bit(low, weight)
  {
    var q, r := low / weight, low % weight;
    DivMod(2 * a + q, r, weight);
    assert 2 * weight * a + low == (2 * a + q) * weight + r;
  }

  /** The flags in the lower twelve bits of a word are those given. */
  lemma PackedFlags(address: Word, flags: nat)
    requires flags < PAGE_SIZE
    ensures var e := Packed(address, flags);
            && e % PAGE_SIZE == flags && Bit(e, 1) == Bit(flags, 1) && Bit(e, 2) == Bit(flags, 2)
            && Bit(e, 4) == Bit(flags, 4)
            && Bit(e, 8) == Bit(flags, 8) && Bit(e, 16) == Bit(flags, 16)
            && Bit(e, 128) == Bit(flags, 128) && Bit(e, 256) == Bit(flags, 256)
  {
    hide Bit;
    var a := address / PAGE_SIZE;
    BitAbove(2048 * a, flags, 1);
    BitAbove(1024 * a, flags, 2);
    BitAbove(512 * a, flags, 4);
    BitAbove(256 * a, flags, 8);
    BitAbove(128 * a, flags, 16);
    BitAbove(16 * a, flags, 128);
    BitAbove(8 * a, flags, 256);
  }

  /**
   * The flags of a directory entry: present, write enabled, user access, write through and cache disable, from bit 0
   * on.
   */
  function DirectoryFlags(cacheDisable: bool, writeThrough: bool, userAccess: bool, writeEnabled: bool,
                          present: bool): (r: nat)
    ensures r < 32 && (r % 2 == 1 <==> present)
    ensures Bit(r, 1) == present && Bit(r, 2) == writeEnabled && Bit(r, 4) == userAccess
    ensures Bit(r, 8) == writeThrough && Bit(r, 16) == cacheDisable
  {
    Flag(cacheDisable, 16) + Flag(writeThrough, 8) + Flag(userAccess, 4) + Flag(writeEnabled, 2) + Flag(present, 1)
  }

  /** What lies above the lowest seven bits leaves those. */
  lemma LowFlags(x: nat, low: nat)
    requires low < 32
    ensures var r := 128 * x + low;
            && r % 128 == low && Bit(r, 1) == Bit(low, 1) && Bit(r, 2) == Bit(low, 2) && Bit(r, 4) == Bit(low, 4)
            && Bit(r, 8) == Bit(low, 8) && Bit(r, 16) == Bit(low, 16)
  {
    hide Bit;
    BitAbove(64 * x, low, 1);
    BitAbove(32 * x, low, 2);
    BitAbove(16 * x, low, 4);
    BitAbove(8 * x, low, 8);
    BitAbove(4 * x, low, 16);
  }

  lemma TopFlags(g: nat, p: nat, low: nat)
    requires low < 32 && g < 2 && p < 2
    ensures var r := 256 * g + 128 * p + low;
            r < 512 && (Bit(r, 128) <==> p == 1) && (Bit(r, 256) <==> g == 1)
  {
    hide Bit;
    BitAt(2 * g + p, low, 128);
    BitAt(g, 128 * p + low, 256);
  }

  /** Two more flags, of weights 256 and 128, above the lowest five bits. */
  lemma UpperFlags(low: nat, global: bool, pageAttributeTable: bool)
    requires low < 32
    ensures var r := Flag(global, 256) + Flag(pageAttributeTable, 128) + low;
            && r < 512 && r % 128 == low && Bit(r, 1) == Bit(low, 1) && Bit(r, 2) == Bit(low, 2)
            && Bit(r, 4) == Bit(low, 4) && Bit(r, 8) == Bit(low, 8) && Bit(r, 16) == Bit(low, 16)
            && Bit(r, 128) == pageAttributeTable && Bit(r, 256) == global
  {
    hide Bit;
    var g, p := Flag(global, 1), Flag(pageAttributeTable, 1);
    LowFlags(2 * g + p, low);
    TopFlags(g, p, low);
  }

  /** All flags of a table entry, in terms of the five lowest. */
  lemma EntryFlags(address: Word, low: nat, global: bool, pageAttributeTable: bool)
    requires low < 32
    ensures var flags := Flag(global, 256) + Flag(pageAttributeTable, 128) + low;
            && flags < PAGE_SIZE && (flags % 2 == 1 <==> low % 2 == 1)
            && var e := Packed(address, flags);
               && Bit(e, 1) == Bit(low, 1) && Bit(e, 2) == Bit(low, 2)
               && Bit(e, 4) == Bit(low, 4) && Bit(e, 8) == Bit(low, 8) && Bit(e, 16) == Bit(low, 16)
               && Bit(e, 128) == pageAttributeTable && Bit(e, 256) == global
               && e % PAGE_SIZE % 128 < 32 && e % PAGE_SIZE < 512
  {
    hide Bit, Packed;
    UpperFlags(low, global, pageAttributeTable);
    PackedFlags(address, Flag(global, 256) + Flag(pageAttributeTable, 128) + low);
  }

  /** A directory entry: the page of a table, and the five flags; the other bits are zero. */
  function CreateDirectoryEntryValue(address: Word, cacheDisable: bool, writeThrough: bool, userAccess: bool,
                                     writeEnabled: bool, present: bool): (e: Word)
    ensures GetEntryAddress(e) == address - address % PAGE_SIZE && (IsEntryPresent(e) <==> present)
    ensures Bit(e, 1) == present && Bit(e, 2) == writeEnabled && Bit(e, 4) == userAccess && Bit(e, 8) == writeThrough
    ensures Bit(e, 16) == cacheDisable && e % PAGE_SIZE < 32
  {
    var flags := DirectoryFlags(cacheDisable, writeThrough, userAccess, writeEnabled, present);
    PackedFlags(address, flags);
    Packed(address, flags)
  }

  /** A table entry: a page, and the seven flags; the other bits are zero. */
  function CreateTableEntryValue(address: Word, global: bool, pageAttributeTable: bool, cacheDisable: bool,
                                 writeThrough: bool, userAccess: bool, writeEnabled: bool, present: bool): (e: Word)
    ensures GetEntryAddress(e) == address - address % PAGE_SIZE && (IsEntryPresent(e) <==> present)
    ensures Bit(e, 1) == present && Bit(e, 2) == writeEnabled && Bit(e, 4) == userAccess && Bit(e, 8) == writeThrough
    ensures Bit(e, 16) == cacheDisable && Bit(e, 128) == pageAttributeTable && Bit(e, 256) == global
    ensures e % PAGE_SIZE % 128 < 32 && e % PAGE_SIZE < 512
  {
    var low := DirectoryFlags(cacheDisable, writeThrough, userAccess, writeEnabled, present);
    EntryFlags(address, low, global, pageAttributeTable);
    Packed(address, Flag(global, 256) + Flag(pageAttributeTable, 128) + low)
  }

  /** The page an entry points to, if it is present. */
  function Target(e: Word): (r: Option<nat>)
    ensures r.Some? ==> r.value < PAGES
  {
    if IsEntryPresent(e) then Some(GetEntryAddress(e) / PAGE_SIZE) else None
  }

  /** The table for directory entry i. */
  function Table(mem: Ram, dir: nat, i: nat): (t: Option<nat>)
    requires dir < PAGES && i < ENTRIES
    ensures t.Some? ==> t.value < PAGES
  {
    Target(mem[dir][i])
  }

  /** Entry j of the table for directory entry i. */
  function Slot(mem: Ram, dir: nat, i: nat, j: nat): (f: Option<nat>)
    requires dir < PAGES && i < ENTRIES && j < ENTRIES
    ensures f.Some? ==> f.value < PAGES
  {
    var t := Table(mem, dir, i);
    if t.None? then None else Target(mem[t.value][j])
  }

  /** The page behind a virtual page. */
  function PageOf(mem: Ram, dir: nat, v: nat): (f: Option<nat>)
    requires dir < PAGES && v < PAGES
  {
    Slot(mem, dir, v / ENTRIES, v % ENTRIES)
  }

  /** The translation of a directory, as a map from virtual to physical pages. */
  ghost function Mapping(mem: Ram, dir: nat): (m: map<nat, nat>)
    requires dir < PAGES
  {
    map v | 0 <= v < PAGES && PageOf(mem, dir, v).Some? :: PageOf(mem, dir, v).value
  }

  /** Tables are used pages, none of them page 0 or the directory, and no two entries share one. */
  ghost predicate Directory(mem: Ram, dir: nat, used: set<nat>) {
    && 0 < dir < PAGES && dir in used
    && (forall i: nat :: i < ENTRIES && Table(mem, dir, i).Some? ==>
          var t := Table(mem, dir, i).value; t in used && t != 0 && t != dir)
    && (forall i: nat, j: nat :: i < ENTRIES && j < ENTRIES && i != j && Table(mem, dir, i).Some? ==>
        Table(mem, dir, i) != Table(mem, dir, j))
  }

  /** The tables of the directory entries below n. */
  ghost function TablesBelow(mem: Ram, dir: nat, n: nat): (ts: set<nat>)
    requires dir < PAGES && n <= ENTRIES
  {
    set i: nat | i < n && Table(mem, dir, i).Some? :: Table(mem, dir, i).value
  }

  /** The directory and its tables. */
  ghost function Structure(mem: Ram, dir: nat): (ps: set<nat>)
    requires dir < PAGES
  {
    {dir} + TablesBelow(mem, dir, ENTRIES)
  }

  /** A page of zeros is a directory without entries. */
  lemma EmptyDirectory(mem: Ram, dir: nat, used: set<nat>)
    requires 0 < dir < PAGES && dir in used && mem[dir] == Blank()
    ensures Directory(mem, dir, used) && Mapping(mem, dir) == map[] && Structure(mem, dir) == {dir}
  {
    assert forall i: nat :: i < ENTRIES ==> Table(mem, dir, i) == None;
    assert forall v :: 0 <= v < PAGES ==> PageOf(mem, dir, v) == None;
  }

  /** Memory with a new, empty table for directory entry i. */
  function WithTable(mem: Ram, dir: nat, i: nat, t: nat, e: Word): (mem': Ram)
    requires dir < PAGES && i < ENTRIES && t < PAGES && t != dir
  {
    mem[t := Blank()][dir := mem[dir][i := e]]
  }

  lemma TableAdded(mem: Ram, dir: nat, used: set<nat>, i: nat, t: nat, e: Word)
    requires Directory(mem, dir, used) && i < ENTRIES && Table(mem, dir, i) == None
    requires 0 < t < PAGES && t !in used && Target(e) == Some(t)
    ensures var mem' := WithTable(mem, dir, i, t, e);
            && Directory(mem', dir, used + {t}) && Table(mem', dir, i) == Some(t)
            && Mapping(mem', dir) == Mapping(mem, dir) && Structure(mem', dir) == Structure(mem, dir) + {t}
  {
    var mem' := WithTable(mem, dir, i, t, e);
    forall j: nat | j < ENTRIES
      ensures Table(mem', dir, j) == if j == i then Some(t) else Table(mem, dir, j)
    {
    }
    forall v | 0 <= v < PAGES
      ensures PageOf(mem', dir, v) == PageOf(mem, dir, v)
    {
    }
    assert Table(mem', dir, i).value in TablesBelow(mem', dir, ENTRIES);
    forall p | p in TablesBelow(mem, dir, ENTRIES)
      ensures p in TablesBelow(mem', dir, ENTRIES)
    {
      var j: nat :| j < ENTRIES && Table(mem, dir, j) == Some(p);
      assert Table(mem', dir, j) == Some(p);
    }
  }

  /** The same tables make the same structure. */
  lemma SameStructure(mem: Ram, mem': Ram, dir: nat)
    requires dir < PAGES && forall k: nat :: k < ENTRIES ==> Table(mem', dir, k) == Table(mem, dir, k)
    ensures Structure(mem', dir) == Structure(mem, dir)
  {
  }

  /** Memory with another entry j in table i. */
  function WithEntry(mem: Ram, dir: nat, i: nat, j: nat, e: Word): (mem': Ram)
    requires dir < PAGES && i < ENTRIES && j < ENTRIES && Table(mem, dir, i).Some?
  {
    var t := Table(mem, dir, i).value;
    mem[t := mem[t][j := e]]
  }

  lemma MappingSet(mem: Ram, mem': Ram, dir: nat, v: nat, t: Option<nat>)
    requires dir < PAGES && v < PAGES
    requires forall w: nat :: w < PAGES ==> PageOf(mem', dir, w) == if w == v then t else PageOf(mem, dir, w)
    ensures Mapping(mem', dir) == if t.Some? then Mapping(mem, dir)[v := t.value] else Mapping(mem, dir) - {v}
  {
    hide PageOf;
  }

  /** Writing an entry of a table changes that translation only. */
  lemma EntrySet(mem: Ram, dir: nat, used: set<nat>, v: nat, e: Word)
    requires Directory(mem, dir, used) && v < PAGES && Table(mem, dir, v / ENTRIES).Some?
    ensures var mem' := WithEntry(mem, dir, v / ENTRIES, v % ENTRIES, e);
            && Directory(mem', dir, used) && Structure(mem', dir) == Structure(mem, dir)
            && (forall i: nat :: i < ENTRIES ==> Table(mem', dir, i) == Table(mem, dir, i))
            && Mapping(mem', dir) == if Target(e).Some? then Mapping(mem, dir)[v := Target(e).value]
                else Mapping(mem, dir) - {v}
  {
    var i, j := v / ENTRIES, v % ENTRIES;
    var mem' := WithEntry(mem, dir, i, j, e);
    assert forall k: nat :: k < ENTRIES ==> Table(mem', dir, k) == Table(mem, dir, k);
    SameStructure(mem, mem', dir);
    forall w: nat | w < PAGES
      ensures PageOf(mem', dir, w) == if w == v then Target(e) else PageOf(mem, dir, w)
    {
      assert w == w / ENTRIES * ENTRIES + w % ENTRIES;
    }
    MappingSet(mem, mem', dir, v, Target(e));
  }

  /** Memory without the table for directory entry i. */
  function WithoutTable(mem: Ram, dir: nat, i: nat): (mem': Ram)
    requires dir < PAGES && i < ENTRIES
  {
    mem[dir := mem[dir][i := 0]]
  }

  /** Dropping a table without entries changes no translation. */
  lemma TableDropped(mem: Ram, dir: nat, used: set<nat>, i: nat)
    requires Directory(mem, dir, used) && i < ENTRIES && Table(mem, dir, i).Some?
    requires mem[Table(mem, dir, i).value] == Blank()
    ensures var t, mem' := Table(mem, dir, i).value, WithoutTable(mem, dir, i);
            && Directory(mem', dir, used - {t})
            && Mapping(mem', dir) == Mapping(mem, dir) && Structure(mem', dir) == Structure(mem, dir) - {t}
  {
    var t, mem' := Table(mem, dir, i).value, WithoutTable(mem, dir, i);
    forall k: nat | k < ENTRIES
      ensures Table(mem', dir, k) == if k == i then None else Table(mem, dir, k)
    {
    }
    forall v | 0 <= v < PAGES
      ensures PageOf(mem', dir, v) == PageOf(mem, dir, v)
    {
    }
    forall p | p in TablesBelow(mem, dir, ENTRIES) - {t}
      ensures p in TablesBelow(mem', dir, ENTRIES)
    {
      var j: nat :| j < ENTRIES && Table(mem, dir, j) == Some(p);
      assert Table(mem', dir, j) == Some(p);
    }
  }
}
