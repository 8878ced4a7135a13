/** Mapping, unmapping, and the life of a page directory. */
module Paging {
  import opened Common
  import opened PhysicalPages
  import opened PageTables
  import opened PageCounts

  /** Where the kernel lies: its pages are mapped in every directory and are never freed with one. */
  datatype Kernel = Kernel(start: Word, end: Word) {
    predicate Has(f: nat) {
      start <= f * PAGE_SIZE <= end
    }
  }

  /**
   * Present, write enabled, user access, write through and cache disable; in a table entry, global and attribute bits
   * too.
   */
  const DIRECTORY_FLAGS: nat := 0x1F
  const TABLE_FLAGS: nat := 0x19F

  lemma AllFlags(address: Word)
    ensures CreateDirectoryEntryValue(address, true, true, true, true, true) == Packed(address, DIRECTORY_FLAGS)
    ensures CreateTableEntryValue(address, true, true, true, true, true, true, true) == Packed(address, TABLE_FLAGS)
  {
  }

  /** A page that a directory has for itself. */
  predicate IsData(k: Kernel, f: nat) {
    f != 0 && !k.Has(f)
  }

  /**
   * Marking [marked, end) used at boot covers the pages that directories are given and that a range from
   * spared with an inclusive end takes for the kernel's, exactly when it does not end on a page boundary:
   * the page at that end is not marked.
   */
  lemma KernelRangeMarked(marked: Word, spared: Word, end: Word)
    requires marked % PAGE_SIZE == 0 && marked <= FIRST_DATA_ADDRESS <= end <= U32 - PAGE_SIZE && spared <= end
    ensures (forall f: nat :: Kernel(spared, end).Has(f) && FIRST_DATA_PAGE <= f ==>
             MarkedUnavailable(marked, end - marked, f)) <==>
              end % PAGE_SIZE != 0
  {
    if end % PAGE_SIZE == 0 {
      var f := end / PAGE_SIZE;
      assert Kernel(spared, end).Has(f) && FIRST_DATA_PAGE <= f && !MarkedUnavailable(marked, end - marked, f);
    }
  }

  /** The data pages of a translation, for virtual pages below n. */
  ghost function FramesBelow(k: Kernel, m: map<nat, nat>, n: nat): (fs: set<nat>) {
    set v | v in m && v < n && IsData(k, m[v]) :: m[v]
  }

  ghost function Frames(k: Kernel, m: map<nat, nat>): (fs: set<nat>) {
    FramesBelow(k, m, PAGES)
  }

  /** No data page is mapped twice, or is part of the structure. */
  ghost predicate Exclusive(k: Kernel, m: map<nat, nat>, structure: set<nat>) {
    && (forall v :: v in m ==> v < PAGES && m[v] < PAGES && (IsData(k, m[v]) ==> m[v] !in structure))
    && (forall v, w :: v in m && w in m && v != w && IsData(k, m[v]) ==> m[v] != m[w])
  }

  /**
   * Every used page is a page of base, which were used before the directory was made, or belongs to
   * the directory, or is a stray: a page of the kernel range that the directory was given.
   */
  ghost predicate Account(k: Kernel, base: set<nat>, strays: set<nat>, structure: set<nat>, m: map<nat, nat>,
                          used: set<nat>) {
    && Exclusive(k, m, structure)
    && used == base + strays + structure + Frames(k, m)
    && structure + Frames(k, m) !! base + strays
  }

  /**
   * Of the pages given for virtual pages, those that the directory will not give back: the virtual page was
   * mapped already, or the page lies in the kernel range.
   */
  ghost function Lost(k: Kernel, m: map<nat, nat>, given: map<nat, nat>): (fs: set<nat>) {
    set v | v in given && (v in m || k.Has(given[v])) :: given[v]
  }

  lemma FramesAdd(k: Kernel, m: map<nat, nat>, v: nat, f: nat)
    requires v !in m && v < PAGES
    ensures Frames(k, m[v := f]) == Frames(k, m) + if IsData(k, f) then {f} else {}
  {
    var m' := m[v := f];
    assert IsData(k, f) ==> m'[v] in Frames(k, m');
    forall g | g in Frames(k, m)
      ensures g in Frames(k, m')
    {
      var w :| w in m && w < PAGES && IsData(k, m[w]) && m[w] == g;
      assert m'[w] == g;
    }
  }

  lemma LostNone(k: Kernel, m: map<nat, nat>)
    ensures Lost(k, m, map[]) == {}
  {
  }

  lemma LostAdd(k: Kernel, m: map<nat, nat>, given: map<nat, nat>, v: nat, f: nat)
    requires v !in given
    ensures Lost(k, m, given[v := f]) == Lost(k, m, given) + if v in m || k.Has(f) then {f} else {}
  {
    var given' := given[v := f];
    assert v in m || k.Has(f) ==> given'[v] in Lost(k, m, given');
    forall g | g in Lost(k, m, given)
      ensures g in Lost(k, m, given')
    {
      var w :| w in given && (w in m || k.Has(given[w])) && given[w] == g;
      assert given'[w] == g;
    }
  }

  /** A new page is mapped, perhaps through a new table. */
  lemma PageAdded(k: Kernel, base: set<nat>, strays: set<nat>, st: set<nat>, st': set<nat>, m: map<nat, nat>,
                  used: set<nat>, v: nat, f: nat)
    requires Account(k, base, strays, st, m, used) && v !in m && v < PAGES
    requires 0 < f < PAGES && f !in used && st <= st' && st' - st !! used + {f}
    ensures Account(k, base, strays + if k.Has(f) then {f} else {}, st', m[v := f], used + {f} + (st' - st))
  {
    FramesAdd(k, m, v, f);
    forall w | w in m && IsData(k, m[w])
      ensures m[w] in used
    {
      assert m[w] in Frames(k, m);
    }
  }

  /** A new page for a virtual page that is mapped already. */
  lemma PageLost(k: Kernel, base: set<nat>, strays: set<nat>, st: set<nat>, st': set<nat>, m: map<nat, nat>,
                 used: set<nat>, f: nat)
    requires Account(k, base, strays, st, m, used) && f !in used && st <= st' && st' - st !! used + {f}
    ensures Account(k, base, strays + {f}, st', m, used + {f} + (st' - st))
  {
    forall w | w in m && IsData(k, m[w])
      ensures m[w] in used
    {
      assert m[w] in Frames(k, m);
    }
  }

  /** A new page for virtual page v, where given are the pages given so far. */
  lemma PageGiven(k: Kernel, base: set<nat>, strays: set<nat>, st: set<nat>, st': set<nat>, m: map<nat, nat>,
                  given: map<nat, nat>,
                  used: set<nat>, v: nat, f: nat)
    requires Account(k, base, strays + Lost(k, m, given), st, given + m, used) && v !in given && v < PAGES
    requires 0 < f < PAGES && f !in used && st <= st' && st' - st !! used + {f}
    ensures given[v := f] + m == if v in given + m then given + m else (given + m)[v := f]
    ensures Account(k, base, strays + Lost(k, m, given[v := f]), st', given[v := f] + m, used + {f} + (st' - st))
  {
    hide Account, Lost;
    LostAdd(k, m, given, v, f);
    assert given[v := f] + m == if v in given + m then given + m else (given + m)[v := f];
    var strays' := strays + Lost(k, m, given);
    if v in m {
      PageLost(k, base, strays', st, st', given + m, used, f);
      assert strays' + {f} == strays + Lost(k, m, given[v := f]);
    } else {
      PageAdded(k, base, strays', st, st', given + m, used, v, f);
      assert strays' + (if k.Has(f) then {f} else {}) == strays + Lost(k, m, given[v := f]);
    }
  }

  /** Pages of the kernel are mapped in an empty directory. */
  lemma KernelPagesMapped(k: Kernel, base: set<nat>, st: set<nat>, m: map<nat, nat>)
    requires st !! base && forall v :: v in m ==> v < PAGES && m[v] < PAGES && k.Has(m[v])
    ensures Account(k, base, {}, st, m, base + st)
  {
    assert Frames(k, m) == {};
  }

  /** The lowest free pages were taken first. */
  ghost predicate LowestFirst(used: set<nat>, used': set<nat>) {
    used <= used' && forall p, q :: p in used' && p !in used && 0 <= q < p ==> q in used'
  }

  /** A structure gained new pages only, the lowest first. */
  ghost predicate Growth(st: set<nat>, used: set<nat>, st': set<nat>, used': set<nat>) {
    st <= st' && st' - st !! used && used' == used + (st' - st) && LowestFirst(used, used')
  }

  lemma GrowthNone(st: set<nat>, used: set<nat>)
    ensures Growth(st, used, st, used)
  {
  }

  /** The first page of a structure. */
  lemma GrowthFirst(used: set<nat>, p: nat)
    requires p !in used && forall q :: 0 <= q < p ==> q in used
    ensures Growth({}, used, {p}, used + {p})
  {
  }

  /** One more page of a structure, the first free one. */
  lemma GrowthOne(st: set<nat>, used: set<nat>, p: nat)
    requires p !in used && st <= used && forall q :: 0 <= q < p ==> q in used
    ensures Growth(st, used, st + {p}, used + {p})
  {
  }

  lemma GrowthSteps(st: set<nat>, used: set<nat>, st': set<nat>, used': set<nat>, st'': set<nat>, used'': set<nat>)
    requires Growth(st, used, st', used') && Growth(st', used', st'', used'')
    ensures Growth(st, used, st'', used'')
  {
    assert st'' - st == (st'' - st') + (st' - st);
  }

  lemma NewAccount(k: Kernel, base: set<nat>, st: set<nat>, m: map<nat, nat>, used: set<nat>)
    requires Growth({}, base, st, used) && forall v :: v in m ==> v < PAGES && m[v] == v && k.Has(v)
    ensures Account(k, base, {}, st, m, used) && used - base == st && LowestFirst(base, used)
  {
    KernelPagesMapped(k, base, st, m);
  }

  /** Used pages outside a structure keep their words. */
  ghost predicate Intact(mem: Ram, used: set<nat>, st: set<nat>, mem': Ram) {
    forall p :: p in used && p !in st && p < PAGES ==> mem'[p] == mem[p]
  }

  lemma IntactNone(mem: Ram, used: set<nat>, st: set<nat>)
    ensures Intact(mem, used, st, mem)
  {
  }

  lemma IntactNew(mem: Ram, used: set<nat>, p: nat, page: Page)
    requires p < PAGES && p !in used
    ensures Intact(mem, used, {}, mem[p := page])
  {
  }

  /** A free page and a page of the structure change. */
  lemma IntactTwo(mem: Ram, used: set<nat>, st: set<nat>, p: nat, page: Page, d: nat, page': Page)
    requires p < PAGES && p !in used && d < PAGES && d in st
    ensures Intact(mem, used, st, mem[p := page][d := page'])
  {
  }

  lemma IntactSteps(mem: Ram, used: set<nat>, st: set<nat>, mem': Ram, used': set<nat>, st': set<nat>, mem'': Ram)
    requires Intact(mem, used, st, mem') && Intact(mem', used', st', mem'') && used <= used' && st' - st !! used
    ensures Intact(mem, used, st, mem'')
  {
  }

  /** The virtual pages that the loop over [start, end) visits. */
  ghost predicate Visited(start: Word, end: Word, v: int) {
    start / PAGE_SIZE <= v < PAGES && start + (v - start / PAGE_SIZE) * PAGE_SIZE < end
  }

  /** The visited pages below n have been given new pages, the first of them the first free one. */
  ghost predicate Backed(given: map<nat, nat>, used: set<nat>, start: Word, end: Word, n: nat) {
    && (forall v :: v in given <==> Visited(start, end, v) && v < n)
    && (forall v :: v in given ==> given[v] !in used && FIRST_DATA_PAGE <= given[v] < PAGES)
    && (forall v, w :: v in given && w in given && v != w ==> given[v] != given[w])
    && (start / PAGE_SIZE in given ==> forall q :: FIRST_DATA_PAGE <= q < given[start / PAGE_SIZE] ==> q in used)
  }

  lemma BackedStart(used: set<nat>, start: Word, end: Word)
    ensures Backed(map[], used, start, end, start / PAGE_SIZE)
  {
  }

  lemma BackedStep(given: map<nat, nat>, used: set<nat>, used': set<nat>, start: Word, end: Word, v: nat, f: nat)
    requires Backed(given, used, start, end, v) && Visited(start, end, v) && used <= used'
    requires v == start / PAGE_SIZE ==> used' == used
    requires forall w :: w in given ==> given[w] in used'
    requires f !in used' && FIRST_DATA_PAGE <= f < PAGES && forall q :: FIRST_DATA_PAGE <= q < f ==> q in used'
    ensures v !in given && Backed(given[v := f], used, start, end, v + 1)
  {
  }

  lemma BackedNext(given: map<nat, nat>, used: set<nat>, start: Word, end: Word, v: nat)
    requires Backed(given, used, start, end, v)
    ensures v !in given
  {
  }

  lemma NextPage(start: Word, virt: Word)
    requires start <= virt && (virt - start) % PAGE_SIZE == 0
    ensures (virt + PAGE_SIZE - start) % PAGE_SIZE == 0 && (virt + PAGE_SIZE) / PAGE_SIZE == virt / PAGE_SIZE + 1
  {
    var k := (virt - start) / PAGE_SIZE;
    assert virt - start == PAGE_SIZE * k && virt + PAGE_SIZE - start == PAGE_SIZE * (k + 1);
  }

  lemma BackedEnd(given: map<nat, nat>, used: set<nat>, start: Word, end: Word, virt: Word)
    requires Backed(given, used, start, end, virt / PAGE_SIZE)
    requires end <= virt && start <= virt && (virt - start) % PAGE_SIZE == 0
    ensures Backed(given, used, start, end, PAGES)
  {
    forall v | Visited(start, end, v)
      ensures v < virt / PAGE_SIZE
    {
    }
  }

  /** The virtual pages that the loop over [start, end] maps to themselves. */
  ghost predicate Reached(start: Word, end: Word, v: int) {
    start / PAGE_SIZE <= v < PAGES && start + (v - start / PAGE_SIZE) * PAGE_SIZE <= end
  }

  ghost function IdentityMap(start: Word, end: Word, n: nat): (m: map<nat, nat>) {
    map v: nat | v < PAGES && Reached(start, end, v) && v < n :: v
  }

  lemma IdentityStart(start: Word, end: Word, m: map<nat, nat>)
    ensures IdentityMap(start, end, start / PAGE_SIZE) + m == m
  {
  }

  lemma IdentityStep(start: Word, end: Word, m: map<nat, nat>, v: nat)
    requires Reached(start, end, v)
    ensures var m' := IdentityMap(start, end, v) + m;
            IdentityMap(start, end, v + 1) + m == if v in m' then m' else m'[v := v]
  {
  }

  lemma IdentityEnd(start: Word, end: Word, addr: Word)
    requires end < addr && start <= addr && (addr - start) % PAGE_SIZE == 0
    ensures IdentityMap(start, end, addr / PAGE_SIZE) == IdentityMap(start, end, PAGES)
  {
    forall v | Reached(start, end, v)
      ensures v < addr / PAGE_SIZE
    {
    }
  }

  /** The first virtual page after those that the loop over [start, end] maps. */
  function Beyond(start: Word, end: Word): (v: nat)
    ensures start / PAGE_SIZE <= v
  {
    start / PAGE_SIZE + if start <= end then (end - start) / PAGE_SIZE + 1 else 0
  }

  lemma LastPage(start: Word, end: Word, addr: Word)
    requires start <= addr && (addr - start) % PAGE_SIZE == 0
    requires if start <= end then addr <= end + PAGE_SIZE else addr == start
    ensures if addr <= end then addr / PAGE_SIZE < Beyond(start, end) else addr / PAGE_SIZE == Beyond(start, end)
  {
    var k := (addr - start) / PAGE_SIZE;
    assert addr == start + PAGE_SIZE * k && addr / PAGE_SIZE == start / PAGE_SIZE + k;
  }

  /** The first virtual page after those that the loop over [start, end) visits. */
  function Past(start: Word, end: Word): (v: nat)
    ensures start / PAGE_SIZE <= v
  {
    start / PAGE_SIZE + if start < end then (end - start - 1) / PAGE_SIZE + 1 else 0
  }

  lemma PastPage(start: Word, end: Word, virt: Word)
    requires start <= virt && (virt - start) % PAGE_SIZE == 0
    requires if start < end then virt < end + PAGE_SIZE else virt == start
    ensures if virt < end then virt / PAGE_SIZE < Past(start, end) else virt / PAGE_SIZE == Past(start, end)
  {
    var k := (virt - start) / PAGE_SIZE;
    assert virt == start + PAGE_SIZE * k && virt / PAGE_SIZE == start / PAGE_SIZE + k;
  }

  /** The translations of a new directory. */
  ghost function Initial(kernel: Kernel, mapKernel: bool): (m: map<nat, nat>) {
    map v: nat | v < PAGES && mapKernel && kernel.Has(v) :: v
  }

  /** How many pages a new directory takes. */
  ghost function StructureSize(kernel: Kernel, mapKernel: bool): (n: nat) {
    1 + if mapKernel && kernel.start <= kernel.end
        then kernel.end / PAGE_SIZE / ENTRIES - kernel.start / PAGE_SIZE / ENTRIES + 1 else 0
  }

  lemma KernelMapped(kernel: Kernel)
    requires kernel.start % PAGE_SIZE == 0
    ensures IdentityMap(kernel.start, kernel.end, PAGES) + map[] == Initial(kernel, true)
  {
  }

  class Memory {
    const pages: PageBitmap
    const kernel: Kernel
    var ram: Ram

    constructor (pages: PageBitmap, ram: Ram, kernel: Kernel)
      ensures this.pages == pages && this.ram == ram && this.kernel == kernel
    {
      this.pages, this.ram, this.kernel := pages, ram, kernel;
    }

    ghost predicate Valid(dir: nat)
      reads this, pages, pages.words
    {
      pages.Valid() && 0 < dir < PAGES && Directory(ram, dir, pages.used)
    }

    /** Used pages outside the structure of a directory keep their words. */
    twostate predicate Elsewhere(dir: nat)
      requires dir < PAGES
      reads this, pages
    {
      Intact(old(ram), old(pages.used), old(Structure(ram, dir)), ram)
    }

    /** The physical address behind a virtual one: 0 for a page that is not mapped or is mapped to page 0. */
    method ResolveVirtualToPhysicalAddress(virt: Word, dir: nat) returns (phys: Word)
      requires Valid(dir)
      ensures var v, m := virt / PAGE_SIZE, Mapping(ram, dir);
              phys == if v in m && m[v] != 0 then m[v] * PAGE_SIZE + virt % PAGE_SIZE else 0
    {
      var i, j := virt / PAGE_SIZE / ENTRIES, virt / PAGE_SIZE % ENTRIES;
      var entry := ram[dir][i];
      if !IsEntryPresent(entry) {
        return 0;
      }
      var address := GetEntryAddress(entry);
      if address == 0 {
        return 0;
      }
      entry := ram[address / PAGE_SIZE][j];
      if !IsEntryPresent(entry) {
        return 0;
      }
      address := GetEntryAddress(entry);
      if address == 0 {
        return 0;
      }
      return address + virt % PAGE_SIZE;
    }

    lemma DirectoryPage(mem: Ram, dir: nat, used: set<nat>)
      requires Directory(mem, dir, used)
      ensures 0 < dir < PAGES && dir in used
    {
    }

    lemma StructureUsed(mem: Ram, dir: nat, used: set<nat>)
      requires Directory(mem, dir, used)
      ensures Structure(mem, dir) <= used && dir in Structure(mem, dir)
    {
    }

    /** The structure of a directory gained new pages only. */
    twostate predicate Grown(dir: nat)
      requires dir < PAGES
      reads this, pages
    {
      Growth(old(Structure(ram, dir)), old(pages.used), Structure(ram, dir), pages.used)
    }

    /** There is a table for directory entry i, and the others are as before. */
    twostate predicate OneTable(dir: nat, i: nat)
      requires dir < PAGES
      reads this
    {
      && i < ENTRIES && Table(ram, dir, i).Some?
      && forall k: nat :: k < ENTRIES && k != i ==> Table(ram, dir, k) == old(Table(ram, dir, k))
    }

    /** The first free page is a blank table, for directory entry i with all flags set, and nothing else has changed. */
    twostate predicate NewTable(dir: nat, i: nat, table: nat)
      reads this, pages
    {
      && dir < PAGES && i < ENTRIES && table < PAGES && table != dir
      && table !in old(pages.used) && (forall q :: 0 <= q < table ==> q in old(pages.used))
      && pages.used == old(pages.used) + {table}
      && ram == old(ram)[table := Blank()][dir := old(ram)[dir][i := table * PAGE_SIZE + DIRECTORY_FLAGS]]
    }

    /** How many tables it takes to map a virtual page. */
    ghost function Wants(dir: nat, v: nat): (n: nat)
      requires dir < PAGES && v < PAGES
      reads this
    {
      if Table(ram, dir, v / ENTRIES).Some? then 0 else 1
    }

    /** The table for a virtual page, made if need be. */
    method TableFor(v: nat, dir: nat) returns (ok: bool, table: nat)
      requires Valid(dir) && v < PAGES
      modifies `ram, pages, pages.words
      ensures pages.Valid() && pages.Balance() == old(pages.Balance())
      ensures !ok ==> unchanged(this) && unchanged(pages) && unchanged(pages.words)
      ensures !ok ==> pages.Taken(FIRST_DATA_PAGE, PAGES)
      ensures ok ==> Directory(ram, dir, pages.used) && Table(ram, dir, v / ENTRIES) == Some(table)
      ensures ok ==> Mapping(ram, dir) == old(Mapping(ram, dir)) && Elsewhere(dir) && Grown(dir)
      ensures ok ==> OneTable(dir, v / ENTRIES)
      ensures ok ==> if old(Table(ram, dir, v / ENTRIES)).Some? then ram == old(ram) && pages.used == old(pages.used)
                     else NewTable(dir, v / ENTRIES, table)
      ensures ok <==> Suffice(old(pages.used), 0, old(Wants(dir, v)))
      ensures ok ==> Spent(old(pages.used), pages.used, 0, old(Wants(dir, v)))
    {
      hide Mapping, PageBitmap.Valid, PageBitmap.Balance, Suffice, Spent, Structure, Growth, Intact, Directory;
      DirectoryPage(ram, dir, pages.used);
      var i := v / ENTRIES;
      var entry := ram[dir][i];
      if IsEntryPresent(entry) {
        NoneSpent(pages.used);
        GrowthNone(Structure(ram, dir), pages.used);
        IntactNone(ram, pages.used, Structure(ram, dir));
        return true, GetEntryAddress(entry) / PAGE_SIZE;
      }
      pages.WhenSearchable(0);
      var address;
      ok, address := pages.AllocatePhysicalPage(0);
      table := address / PAGE_SIZE;
      if !ok {
        NothingLeft(pages.used);
        return;
      }
      TableSpent(old(pages.used), table);
      var value := CreateDirectoryEntryValue(address, true, true, true, true, true);
      AllFlags(address);
      TableAdded(ram, dir, old(pages.used), i, table, value);
      StructureUsed(ram, dir, old(pages.used));
      GrowthOne(Structure(ram, dir), old(pages.used), table);
      IntactTwo(ram, old(pages.used), Structure(ram, dir), table, Blank(), dir, ram[dir][i := value]);
      ram := ram[table := Blank()];
      ram := ram[dir := ram[dir][i := value]];
      assert ram == WithTable(old(ram), dir, i, table, value);
    }

    /**
     * The entry of a virtual page that was not mapped is that word, in the table that was there or in a new one, and
     * nothing else has changed.
     */
    twostate predicate Wired(v: nat, word: Word, dir: nat)
      requires v < PAGES && dir < PAGES
      reads this, pages
    {
      var i, j := v / ENTRIES, v % ENTRIES;
      && Table(ram, dir, i).Some?
      && var t := Table(ram, dir, i).value;
         if v in old(Mapping(ram, dir)) then
           ram == old(ram) && pages.used == old(pages.used)
         else if old(Table(ram, dir, i)).Some? then
           t == old(Table(ram, dir, i)).value && ram == old(ram)[t := old(ram)[t][j := word]]
               && pages.used == old(pages.used)
         else
           && t != dir && t !in old(pages.used) && (forall q :: 0 <= q < t ==> q in old(pages.used))
           && pages.used == old(pages.used) + {t}
           && ram == old(ram)[t := Blank()[j := word]][dir := old(ram)[dir][i := t * PAGE_SIZE + DIRECTORY_FLAGS]]
    }

    lemma MappedIff(mem: Ram, dir: nat, v: nat)
      requires dir < PAGES && v < PAGES
      ensures v in Mapping(mem, dir) <==> PageOf(mem, dir, v).Some?
    {
    }

    lemma TableKnown(mem: Ram, dir: nat, used: set<nat>, i: nat)
      requires Directory(mem, dir, used) && i < ENTRIES && Table(mem, dir, i).Some?
      ensures var t := Table(mem, dir, i).value;
              t in Structure(mem, dir) && t in used && t != 0 && t != dir
    {
    }

    /** Maps a virtual page, unless it is mapped already. */
    method MapVirtualAddressToPhysical(virt: Word, phys: Word, dir: nat) returns (ok: bool)
      requires Valid(dir)
      modifies `ram, pages, pages.words
      ensures pages.Valid() && pages.Balance() == old(pages.Balance())
      ensures !ok ==> unchanged(this) && unchanged(pages) && unchanged(pages.words)
      ensures !ok ==> pages.Taken(FIRST_DATA_PAGE, PAGES)
      ensures ok ==> Directory(ram, dir, pages.used) && Elsewhere(dir) && Grown(dir)
      ensures ok ==> OneTable(dir, virt / PAGE_SIZE / ENTRIES)
      ensures ok ==> var v, m := virt / PAGE_SIZE, old(Mapping(ram, dir));
                Mapping(ram, dir) == if v in m then m else m[v := phys / PAGE_SIZE]
      ensures ok ==> Wired(virt / PAGE_SIZE, Packed(phys, TABLE_FLAGS), dir)
      ensures ok <==> Suffice(old(pages.used), 0, old(Wants(dir, virt / PAGE_SIZE)))
      ensures ok ==> Spent(old(pages.used), pages.used, 0, old(Wants(dir, virt / PAGE_SIZE)))
    {
      hide Mapping, PageBitmap.Valid, PageBitmap.Balance, Directory, Suffice, Spent;
      DirectoryPage(ram, dir, pages.used);
      var v := virt / PAGE_SIZE;
      var table;
      ok, table := TableFor(v, dir);
      if !ok {
        return;
      }
      var entry := ram[table][v % ENTRIES];
      MappedIff(ram, dir, v);
      if IsEntryPresent(entry) {
        return;
      }
      entry := CreateTableEntryValue(phys, true, true, true, true, true, true, true);
      AllFlags(phys);
      EntrySet(ram, dir, pages.used, v, entry);
      TableKnown(ram, dir, pages.used, v / ENTRIES);
      ram := ram[table := ram[table][v % ENTRIES := entry]];
    }

    /** All entries of the table but entry j are zero. */
    static predicate Lone(page: Page, j: nat) {
      forall k :: 0 <= k < ENTRIES && k != j ==> page[k] == 0
    }

    lemma ClearedBlank(page: Page, j: nat)
      requires j < ENTRIES
      ensures page[j := 0] == Blank() <==> Lone(page, j)
    {
      if page[j := 0] == Blank() {
        forall k | 0 <= k < ENTRIES && k != j
          ensures page[k] == 0
        {
          assert page[j := 0][k] == page[k];
        }
      }
    }

    /**
     * The entry of a virtual page is cleared. The table goes, and its page is free, exactly when it has no other entry;
     * nothing else has changed.
     */
    twostate predicate Unwired(v: nat, dir: nat)
      requires v < PAGES && dir < PAGES
      reads this, pages
    {
      var i, j := v / ENTRIES, v % ENTRIES;
      match old(Table(ram, dir, i))
      case None => ram == old(ram) && pages.used == old(pages.used)
      case Some(t) =>
        var cleared := old(ram)[t := old(ram)[t][j := 0]];
        if Lone(old(ram)[t], j) then
          ram == cleared[dir := cleared[dir][i := 0]] && pages.used == old(pages.used) - {t}
        else
          ram == cleared && pages.used == old(pages.used)
    }

    /** Removes a translation, and the table with it when that becomes empty. */
    method UnmapVirtualAddress(virt: Word, dir: nat) returns (ok: bool)
      requires Valid(dir)
      modifies `ram, pages, pages.words
      ensures ok && Valid(dir) && pages.Balance() == old(pages.Balance())
      ensures Mapping(ram, dir) == old(Mapping(ram, dir)) - {virt / PAGE_SIZE} && Elsewhere(dir)
      ensures Structure(ram, dir) <= old(Structure(ram, dir))
      ensures pages.used == old(pages.used) - (old(Structure(ram, dir)) - Structure(ram, dir))
      ensures Unwired(virt / PAGE_SIZE, dir)
    {
      hide Mapping, PageBitmap.Valid, PageBitmap.Balance, Directory;
      DirectoryPage(ram, dir, pages.used);
      var v := virt / PAGE_SIZE;
      var entry := ram[dir][v / ENTRIES];
      MappedIff(ram, dir, v);
      if !IsEntryPresent(entry) {
        return true;
      }
      var table := GetEntryAddress(entry) / PAGE_SIZE;
      TableKnown(ram, dir, pages.used, v / ENTRIES);
      EntrySet(ram, dir, pages.used, v, 0);
      ram := ram[table := ram[table][v % ENTRIES := 0]];
      var empty := true;
      for i := 0 to ENTRIES
        invariant empty && forall k :: 0 <= k < i ==> ram[table][k] == 0
      {
        if ram[table][i] != 0 {
          empty := false;
          break;
        }
      }
      ok := true;
      assert empty <==> ram[table] == Blank();
      ClearedBlank(old(ram)[table], v % ENTRIES);
      if empty {
        TableDropped(ram, dir, pages.used, v / ENTRIES);
        ok := pages.FreePhysicalPage(table * PAGE_SIZE);
        ram := ram[dir := ram[dir][v / ENTRIES := 0]];
      }
    }

    twostate lemma SameCounters()
      requires pages.used == old(pages.used) && pages.Balance() == old(pages.Balance())
      ensures pages.totalFree == old(pages.totalFree) && pages.totalUsed == old(pages.totalUsed)
    {
      hide BalanceOf;
      CountersTell(old(pages.totalFree), old(pages.totalUsed), pages.totalFree, pages.totalUsed, |old(pages.used)|,
                   |pages.used|);
    }

    lemma LoneEntry(page: Page, j: nat, word: Word)
      requires j < ENTRIES
      ensures Lone(page[j := word], j) <==> Lone(page, j)
      ensures page == Blank() ==> Lone(page, j)
    {
      forall k | 0 <= k < ENTRIES && k != j
        ensures page[j := word][k] == page[k]
      {
      }
    }

    /**
     * Mapping a virtual page that was not mapped and unmapping it again: the translations are as before, and so are
     * the used pages and both counters exactly when there was no table for the page, or one with another entry.
     */
    method MapThenUnmap(virt: Word, phys: Word, dir: nat) returns (ok: bool)
      requires Valid(dir) && virt / PAGE_SIZE !in Mapping(ram, dir)
      modifies `ram, pages, pages.words
      ensures !ok ==> unchanged(this) && unchanged(pages) && unchanged(pages.words)
      ensures ok <==> Suffice(old(pages.used), 0, old(Wants(dir, virt / PAGE_SIZE)))
      ensures ok ==> Valid(dir) && Mapping(ram, dir) == old(Mapping(ram, dir))
      ensures ok ==> var t, j := old(Table(ram, dir, virt / PAGE_SIZE / ENTRIES)), virt / PAGE_SIZE % ENTRIES;
                var same := t == None || !Lone(old(ram)[t.value], j);
                && (pages.used == old(pages.used) <==> same)
                && (same ==> pages.totalFree == old(pages.totalFree) && pages.totalUsed == old(pages.totalUsed))
    {
      hide Mapping, PageBitmap.Valid, PageBitmap.Balance, Directory, Structure, Packed, Intact, Growth, Lone, Blank;
      hide Suffice, Spent;
      DirectoryPage(ram, dir, pages.used);
      ghost var i, j, word := virt / PAGE_SIZE / ENTRIES, virt / PAGE_SIZE % ENTRIES, Packed(phys, TABLE_FLAGS);
      LoneEntry(Blank(), j, word);
      if Table(ram, dir, i).Some? {
        TableKnown(ram, dir, pages.used, i);
        LoneEntry(ram[Table(ram, dir, i).value], j, word);
      }
      ok := MapVirtualAddressToPhysical(virt, phys, dir);
      if !ok {
        return;
      }
      ok := UnmapVirtualAddress(virt, dir);
      if pages.used == old(pages.used) {
        SameCounters();
      }
    }

    /** A directory whose pages, besides those of base and the strays, are its own. */
    ghost predicate Private(dir: nat, base: set<nat>, strays: set<nat>)
      reads this, pages, pages.words
    {
      Valid(dir) && Account(kernel, base, strays, Structure(ram, dir), Mapping(ram, dir), pages.used)
    }

    lemma MoreUsed(mem: Ram, dir: nat, used: set<nat>, used': set<nat>)
      requires Directory(mem, dir, used) && used <= used'
      ensures Directory(mem, dir, used')
    {
    }

    /** Maps the pages of a range, end included, to themselves, unless they are mapped already. */
    method IdentityMapRange(start: Word, end: Word, dir: nat) returns (ok: bool)
      requires Valid(dir) && end + PAGE_SIZE < U32
      modifies `ram, pages, pages.words
      ensures pages.Valid() && pages.Balance() == old(pages.Balance())
      ensures !ok ==> pages.Taken(FIRST_DATA_PAGE, PAGES)
      ensures ok ==> Directory(ram, dir, pages.used) && Elsewhere(dir) && Grown(dir)
      ensures ok ==> Mapping(ram, dir) == IdentityMap(start, end, PAGES) + old(Mapping(ram, dir))
      ensures ok ==> Tabled(old(ram), ram, dir, start / PAGE_SIZE, Beyond(start, end))
      ensures var missing := |Missing(old(ram), dir, start / PAGE_SIZE, Beyond(start, end))|;
              (ok <==> Suffice(old(pages.used), 0, missing)) && (ok ==> Spent(old(pages.used), pages.used, 0, missing))
    {
      hide Mapping, Structure, PageBitmap.Valid, PageBitmap.Balance;
      hide Directory, IdentityMap, LowestFirst, Intact, Tabled, Missing, Suffice, Spent, Beyond;
      var addr: Word := start;
      DirectoryPage(ram, dir, pages.used);
      ghost var m0, st0, used0 := Mapping(ram, dir), Structure(ram, dir), pages.used;
      IntactNone(ram, used0, st0);
      IdentityStart(start, end, m0);
      GrowthNone(st0, used0);
      ghost var first := start / PAGE_SIZE;
      NoneMissing(ram, dir, first);
      NoneSpent(used0);
      while addr <= end
        invariant Valid(dir) && pages.Balance() == old(pages.Balance()) && start <= addr
        invariant (addr - start) % PAGE_SIZE == 0
        invariant Growth(st0, used0, Structure(ram, dir), pages.used) && Elsewhere(dir)
        invariant Mapping(ram, dir) == IdentityMap(start, end, addr / PAGE_SIZE) + m0
        invariant if start <= end then addr <= end + PAGE_SIZE else addr == start
        invariant Tabled(old(ram), ram, dir, first, addr / PAGE_SIZE)
        invariant Spent(used0, pages.used, 0, |Missing(old(ram), dir, first, addr / PAGE_SIZE)|)
        decreases end + PAGE_SIZE - addr
      {
        ghost var st, used, mem, v := Structure(ram, dir), pages.used, ram, addr / PAGE_SIZE;
        LastPage(start, end, addr);
        OneMoreMissing(old(ram), ram, dir, first, v);
        SpentSteps(used0, used, 0, |Missing(old(ram), dir, first, v)|, 0, Wants(dir, v));
        ok := MapVirtualAddressToPhysical(addr, addr, dir);
        if !ok {
          StillMissing(old(ram), dir, first, v + 1, Beyond(start, end), used0, 0, 0);
          return;
        }
        IdentityStep(start, end, m0, v);
        GrowthSteps(st0, used0, st, used, Structure(ram, dir), pages.used);
        IntactSteps(old(ram), used0, st0, mem, used, st, ram);
        TabledStep(old(ram), mem, ram, dir, first, v);
        addr := addr + PAGE_SIZE;
      }
      ok := true;
      IdentityEnd(start, end, addr);
      LastPage(start, end, addr);
      SpentSuffices(used0, pages.used, 0, |Missing(old(ram), dir, first, Beyond(start, end))|);
    }

    /** The table of directory entry i is one of those below n exactly when i is. */
    lemma TablesStep(mem: Ram, dir: nat, used: set<nat>, i: nat)
      requires Directory(mem, dir, used) && i < ENTRIES
      ensures TablesBelow(mem, dir, i + 1) == TablesBelow(mem, dir, i) +
                match Table(mem, dir, i) { case Some(t) => {t} case None => {} }
      ensures Table(mem, dir, i).Some? ==> Table(mem, dir, i).value !in TablesBelow(mem, dir, i)
      ensures Table(mem, dir, i).Some? ==> Table(mem, dir, i).value in Structure(mem, dir)
    {
    }

    lemma DirectoryApart(mem: Ram, dir: nat, used: set<nat>)
      requires Directory(mem, dir, used)
      ensures dir !in TablesBelow(mem, dir, ENTRIES)
    {
    }

    /** As many tables as directory entries that have one. */
    lemma {:induction false} TablesCount(mem: Ram, dir: nat, used: set<nat>, lo: nat, hi: nat, n: nat)
      requires Directory(mem, dir, used) && lo <= hi && n <= ENTRIES
      requires forall i: nat :: i < ENTRIES ==> (Table(mem, dir, i).Some? <==> lo <= i < hi)
      ensures |TablesBelow(mem, dir, n)| == if n <= lo then 0 else if n <= hi then n - lo else hi - lo
    {
      hide Directory;
      DirectoryPage(mem, dir, used);
      if n > 0 {
        TablesStep(mem, dir, used, n - 1);
        TablesCount(mem, dir, used, lo, hi, n - 1);
      } else {
        assert TablesBelow(mem, dir, 0) == {};
      }
    }

    lemma KernelBeyond()
      requires kernel.start % PAGE_SIZE == 0
      ensures kernel.start <= kernel.end ==> Beyond(kernel.start, kernel.end) == kernel.end / PAGE_SIZE + 1 <= PAGES
      ensures kernel.start > kernel.end ==> Beyond(kernel.start, kernel.end) == kernel.start / PAGE_SIZE
    {
    }

    /** The tables of the kernel range in a directory that was blank. */
    lemma StructureCount(blank: Ram, mem: Ram, dir: nat, used: set<nat>)
      requires Directory(mem, dir, used) && kernel.start % PAGE_SIZE == 0 && blank[dir] == Blank()
      requires Tabled(blank, mem, dir, kernel.start / PAGE_SIZE, Beyond(kernel.start, kernel.end))
      ensures |Structure(mem, dir)| == StructureSize(kernel, true)
    {
      hide Directory;
      DirectoryPage(mem, dir, used);
      DirectoryApart(mem, dir, used);
      var lo := kernel.start / PAGE_SIZE / ENTRIES;
      var hi := if kernel.start <= kernel.end then kernel.end / PAGE_SIZE / ENTRIES + 1 else lo;
      KernelBeyond();
      TablesCount(mem, dir, used, lo, hi, ENTRIES);
    }

    lemma KernelMissing(blank: Ram, dir: nat)
      requires dir < PAGES && kernel.start % PAGE_SIZE == 0 && blank[dir] == Blank()
      ensures |Missing(blank, dir, kernel.start / PAGE_SIZE, Beyond(kernel.start, kernel.end))| + 1 ==
                StructureSize(kernel, true)
    {
      KernelBeyond();
      if kernel.start <= kernel.end {
        AllMissing(blank, dir, kernel.start / PAGE_SIZE, Beyond(kernel.start, kernel.end));
      } else {
        NoneMissing(blank, dir, kernel.start / PAGE_SIZE);
      }
    }

    /** The free pages that are left suffice for the kernel range exactly when all sufficed for the structure. */
    lemma KernelTakes(base: set<nat>, used: set<nat>, blank: Ram, dir: nat)
      requires dir < PAGES && kernel.start % PAGE_SIZE == 0 && blank[dir] == Blank() && Spent(base, used, 0, 1)
      ensures var missing, tables := |Missing(blank, dir, kernel.start / PAGE_SIZE, Beyond(kernel.start, kernel.end))|,
              StructureSize(kernel, true);
              && (Suffice(used, 0, missing) <==> Suffice(base, 0, tables))
              && forall used' :: Spent(used, used', 0, missing) ==> Spent(base, used', 0, tables)
    {
      hide Suffice, Spent, Missing, Beyond, StructureSize;
      KernelMissing(blank, dir);
      SpentSteps(base, used, 0, 1, 0, StructureSize(kernel, true) - 1);
    }

    /** A new directory, empty or with the kernel mapped. */
    method CreatePageDirectory(mapKernel: bool) returns (ok: bool, dir: nat)
      requires pages.Valid() && (mapKernel ==> kernel.start % PAGE_SIZE == 0 && kernel.end + PAGE_SIZE < U32)
      modifies `ram, pages, pages.words
      ensures pages.Valid() && pages.Balance() == old(pages.Balance())
      ensures !ok ==> pages.Taken(FIRST_DATA_PAGE, PAGES)
      ensures ok ==> Private(dir, old(pages.used), {}) && Mapping(ram, dir) == Initial(kernel, mapKernel)
      ensures ok ==> Intact(old(ram), old(pages.used), {}, ram)
      ensures ok ==> LowestFirst(old(pages.used), pages.used)
      ensures ok ==> |pages.used - old(pages.used)| == StructureSize(kernel, mapKernel)
      ensures var tables := StructureSize(kernel, mapKernel);
              (ok <==> Suffice(old(pages.used), 0, tables)) && (ok ==> Spent(old(pages.used), pages.used, 0, tables))
    {
      hide PageBitmap.Valid, PageBitmap.Balance, Directory, Mapping, Structure, Account, Growth, LowestFirst, Intact;
      hide Suffice, Spent, Missing, Tabled, Beyond;
      pages.WhenSearchable(0);
      ghost var base := pages.used;
      var address;
      ok, address := pages.AllocatePhysicalPage(0);
      dir := address / PAGE_SIZE;
      NothingLeft(base);
      if !ok {
        FewerSuffice(base, 0, 1, StructureSize(kernel, mapKernel));
        return;
      }
      TableSpent(base, dir);
      IntactNew(ram, base, dir, Blank());
      ram := ram[dir := Blank()];
      EmptyDirectory(ram, dir, pages.used);
      GrowthFirst(base, dir);
      if mapKernel {
        ghost var used, mem := pages.used, ram;
        KernelTakes(base, used, ram, dir);
        ok := IdentityMapRange(kernel.start, kernel.end, dir);
        if !ok {
          return;
        }
        IntactSteps(old(ram), base, {}, mem, used, {dir}, ram);
        GrowthSteps({}, base, {dir}, used, Structure(ram, dir), pages.used);
        KernelMapped(kernel);
        StructureCount(mem, ram, dir, pages.used);
      }
      NewAccount(kernel, base, Structure(ram, dir), Mapping(ram, dir), pages.used);
    }

    /** Gives a virtual page the first free page, where given are the pages given so far. */
    method BackPage(virt: Word, dir: nat, ghost base: set<nat>, ghost strays: set<nat>, ghost m: map<nat, nat>,
                    ghost given: map<nat, nat>)
      returns (ok: bool, ghost f: nat)
      requires Private(dir, base, strays + Lost(kernel, m, given)) && Mapping(ram, dir) == given + m
      requires virt / PAGE_SIZE !in given
      modifies `ram, pages, pages.words
      ensures pages.Valid() && pages.Balance() == old(pages.Balance())
      ensures !ok ==> pages.Taken(FIRST_DATA_PAGE, PAGES)
      ensures ok ==> f !in old(pages.used) && FIRST_DATA_PAGE <= f < PAGES
      ensures ok ==> forall q :: FIRST_DATA_PAGE <= q < f ==> q in old(pages.used)
      ensures ok ==> Mapping(ram, dir) == given[virt / PAGE_SIZE := f] + m
      ensures ok ==> Private(dir, base, strays + Lost(kernel, m, given[virt / PAGE_SIZE := f]))
      ensures ok ==> old(pages.used) + {f} <= pages.used && Elsewhere(dir)
      ensures ok ==> Structure(ram, dir) - old(Structure(ram, dir)) !! old(pages.used)
      ensures ok ==> OneTable(dir, virt / PAGE_SIZE / ENTRIES)
      ensures var tables := old(Wants(dir, virt / PAGE_SIZE));
              (ok <==> Suffice(old(pages.used), 1, tables)) && (ok ==> Spent(old(pages.used), pages.used, 1, tables))
    {
      hide Mapping, Structure, PageBitmap.Valid, PageBitmap.Balance, Directory, Account, Lost, LowestFirst;
      hide Suffice, Spent;
      ghost var st, used, tables := Structure(ram, dir), pages.used, Wants(dir, virt / PAGE_SIZE);
      pages.WhenSearchable(FIRST_DATA_PAGE);
      var address;
      f := 0;
      ok, address := pages.AllocatePhysicalPage(FIRST_DATA_ADDRESS);
      NothingLeft(used);
      if !ok {
        FewerSuffice(used, 1, 0, tables);
        return;
      }
      f := address / PAGE_SIZE;
      DataSpent(used, f);
      SpentSteps(used, pages.used, 1, 0, 0, tables);
      MoreUsed(ram, dir, used, pages.used);
      ok := MapVirtualAddressToPhysical(virt, address, dir);
      if !ok {
        return;
      }
      PageGiven(kernel, base, strays, st, Structure(ram, dir), m, given, used, virt / PAGE_SIZE, f);
    }

    /** Backs a range of virtual pages with new pages, which are lost where there was a page already. */
    method AllocateVirtualMemoryRange(start: Word, end: Word, dir: nat, ghost base: set<nat>, ghost strays: set<nat>)
      returns (ok: bool, ghost given: map<nat, nat>)
      requires Private(dir, base, strays) && end + PAGE_SIZE <= U32
      modifies `ram, pages, pages.words
      ensures pages.Valid() && pages.Balance() == old(pages.Balance())
      ensures !ok ==> pages.Taken(FIRST_DATA_PAGE, PAGES)
      ensures ok ==> Backed(given, old(pages.used), start, end, PAGES)
      ensures ok ==> Mapping(ram, dir) == given + old(Mapping(ram, dir))
      ensures ok ==> Private(dir, base, strays + Lost(kernel, old(Mapping(ram, dir)), given))
      ensures ok ==> old(pages.used) <= pages.used && Elsewhere(dir)
      ensures ok ==> Structure(ram, dir) - old(Structure(ram, dir)) !! old(pages.used)
      ensures ok && start >= end ==> pages.used == old(pages.used)
      ensures ok ==> Tabled(old(ram), ram, dir, start / PAGE_SIZE, Past(start, end))
      ensures var first, past := start / PAGE_SIZE, Past(start, end);
              var missing := |Missing(old(ram), dir, first, past)|;
              && (ok <==> Suffice(old(pages.used), past - first, missing))
              && (ok ==> Spent(old(pages.used), pages.used, past - first, missing))
    {
      hide Mapping, Structure, PageBitmap.Valid, PageBitmap.Balance;
      hide Directory, Account, Backed, Lost, Intact, LowestFirst, Tabled, Missing, Suffice, Spent, Past;
      ghost var m0, used0, st0 := Mapping(ram, dir), pages.used, Structure(ram, dir);
      IntactNone(ram, used0, st0);
      var virt: Word := start;
      given := map[];
      BackedStart(used0, start, end);
      assert given + m0 == m0;
      LostNone(kernel, m0);
      assert strays + {} == strays;
      ghost var first := start / PAGE_SIZE;
      NoneMissing(ram, dir, first);
      NoneSpent(used0);
      while virt < end
        invariant Private(dir, base, strays + Lost(kernel, m0, given)) && Mapping(ram, dir) == given + m0
        invariant pages.Balance() == old(pages.Balance()) && used0 <= pages.used
        invariant start <= virt && (virt - start) % PAGE_SIZE == 0 && (start >= end ==> virt == start)
        invariant Backed(given, used0, start, end, virt / PAGE_SIZE)
        invariant forall v :: v in given ==> given[v] in pages.used
        invariant virt == start ==> pages.used == used0
        invariant Elsewhere(dir) && Structure(ram, dir) - st0 !! used0
        invariant start < end ==> virt < end + PAGE_SIZE
        invariant Tabled(old(ram), ram, dir, first, virt / PAGE_SIZE)
        invariant Spent(used0, pages.used, virt / PAGE_SIZE - first, |Missing(old(ram), dir, first, virt / PAGE_SIZE)|)
        decreases end + PAGE_SIZE - virt
      {
        ghost var st, used, mem, v := Structure(ram, dir), pages.used, ram, virt / PAGE_SIZE;
        BackedNext(given, used0, start, end, v);
        PastPage(start, end, virt);
        OneMoreMissing(old(ram), ram, dir, first, v);
        SpentSteps(used0, used, v - first, |Missing(old(ram), dir, first, v)|, 1, Wants(dir, v));
        ghost var f;
        ok, f := BackPage(virt, dir, base, strays, m0, given);
        if !ok {
          StillMissing(old(ram), dir, first, v + 1, Past(start, end), used0, v + 1 - first, Past(start, end) - first);
          return;
        }
        TabledStep(old(ram), mem, ram, dir, first, v);
        BackedStep(given, used0, used, start, end, v, f);
        IntactSteps(old(ram), used0, st0, mem, used, st, ram);
        given := given[v := f];
        NextPage(start, virt);
        virt := virt + PAGE_SIZE;
      }
      ok := true;
      BackedEnd(given, used0, start, end, virt);
      PastPage(start, end, virt);
      SpentSuffices(used0, pages.used, Past(start, end) - first, |Missing(old(ram), dir, first, Past(start, end))|);
    }

    lemma FramesStep(m: map<nat, nat>, structure: set<nat>, n: nat)
      requires Exclusive(kernel, m, structure) && n < PAGES
      ensures FramesBelow(kernel, m, n + 1) == FramesBelow(kernel, m, n) +
                if n in m && IsData(kernel, m[n]) then {m[n]} else {}
      ensures n in m && IsData(kernel, m[n]) ==> m[n] !in FramesBelow(kernel, m, n) && m[n] in Frames(kernel, m)
      ensures n in m && IsData(kernel, m[n]) ==> m[n] !in structure
    {
    }

    /** A virtual page is mapped exactly by its entry. */
    lemma EntryIs(dir: nat, i: nat, j: nat)
      requires dir < PAGES && i < ENTRIES && j < ENTRIES
      ensures var v, m := ENTRIES * i + j, Mapping(ram, dir);
              v < PAGES && (v in m <==> Slot(ram, dir, i, j).Some?) && (v in m ==> Slot(ram, dir, i, j).value == m[v])
    {
      var v := ENTRIES * i + j;
      assert v / ENTRIES == i && v % ENTRIES == j;
    }

    /** Without a table there is nothing to free. */
    lemma NoTable(dir: nat, i: nat)
      requires dir < PAGES && i < ENTRIES && Table(ram, dir, i) == None
      ensures FramesBelow(kernel, Mapping(ram, dir), ENTRIES * (i + 1)) ==
                FramesBelow(kernel, Mapping(ram, dir), ENTRIES * i)
    {
      forall v | ENTRIES * i <= v < ENTRIES * (i + 1)
        ensures v !in Mapping(ram, dir)
      {
        EntryIs(dir, i, v - ENTRIES * i);
      }
    }

    lemma TablesPart(mem: Ram, dir: nat, n: nat)
      requires dir < PAGES && n <= ENTRIES
      ensures TablesBelow(mem, dir, n) <= Structure(mem, dir)
    {
    }

    /** Frees the data pages of table i. */
    method FreeTablePages(dir: nat, i: nat, table: nat, ghost base: set<nat>, ghost strays: set<nat>,
                          ghost used: set<nat>)
      returns (ok: bool)
      requires pages.Valid() && Directory(ram, dir, used) && i < ENTRIES && Table(ram, dir, i) == Some(table)
      requires Account(kernel, base, strays, Structure(ram, dir), Mapping(ram, dir), used)
      requires pages.used == used - FramesBelow(kernel, Mapping(ram, dir), ENTRIES * i) - TablesBelow(ram, dir, i)
      modifies pages, pages.words
      ensures ok && pages.Valid() && pages.Balance() == old(pages.Balance())
      ensures pages.used == used - FramesBelow(kernel, Mapping(ram, dir), ENTRIES * (i + 1)) - TablesBelow(ram, dir, i)
    {
      hide Mapping, FramesBelow, TablesBelow, PageBitmap.Valid, PageBitmap.Balance, Directory, Exclusive;
      DirectoryPage(ram, dir, used);
      ghost var m := Mapping(ram, dir);
      for j := 0 to ENTRIES
        invariant pages.Valid() && pages.Balance() == old(pages.Balance())
        invariant pages.used == used - FramesBelow(kernel, m, ENTRIES * i + j) - TablesBelow(ram, dir, i)
      {
        EntryIs(dir, i, j);
        FramesStep(m, Structure(ram, dir), ENTRIES * i + j);
        TablesPart(ram, dir, i);
        var entry := ram[table][j];
        if !IsEntryPresent(entry) {
          continue;
        }
        var address := GetEntryAddress(entry);
        if address == 0 {
          continue;
        }
        if kernel.start <= address <= kernel.end {
          continue;
        }
        ok := pages.FreePhysicalPage(address);
        if !ok {
          return;
        }
      }
      ok := true;
    }

    lemma NothingBelow(mem: Ram, dir: nat, m: map<nat, nat>)
      requires dir < PAGES
      ensures FramesBelow(kernel, m, 0) == {} && TablesBelow(mem, dir, 0) == {}
    {
    }

    lemma FramesPart(m: map<nat, nat>, structure: set<nat>, n: nat)
      requires Exclusive(kernel, m, structure) && n <= PAGES
      ensures FramesBelow(kernel, m, n) <= Frames(kernel, m) && Frames(kernel, m) !! structure
    {
    }

    /** Frees the data pages, the tables and the directory. */
    method DestroyPageDirectory(dir: nat, ghost base: set<nat>, ghost strays: set<nat>) returns (ok: bool)
      requires Private(dir, base, strays)
      modifies pages, pages.words
      ensures ok && pages.Valid() && pages.Balance() == old(pages.Balance())
      ensures pages.used == base + strays
    {
      hide Mapping, FramesBelow, TablesBelow, PageBitmap.Valid, PageBitmap.Balance, Directory, Exclusive;
      ghost var used, m := pages.used, Mapping(ram, dir);
      DirectoryPage(ram, dir, used);
      NothingBelow(ram, dir, m);
      for i := 0 to ENTRIES
        invariant pages.Valid() && pages.Balance() == old(pages.Balance())
        invariant pages.used == used - FramesBelow(kernel, m, ENTRIES * i) - TablesBelow(ram, dir, i)
      {
        TablesStep(ram, dir, used, i);
        var entry := ram[dir][i];
        if !IsEntryPresent(entry) {
          NoTable(dir, i);
          continue;
        }
        var table := GetEntryAddress(entry) / PAGE_SIZE;
        TableKnown(ram, dir, used, i);
        if table == 0 {
          continue;
        }
        ok := FreeTablePages(dir, i, table, base, strays, used);
        if !ok {
          return;
        }
        FramesPart(m, Structure(ram, dir), ENTRIES * (i + 1));
        ok := pages.FreePhysicalPage(table * PAGE_SIZE);
        if !ok {
          return;
        }
      }
      DirectoryApart(ram, dir, used);
      FramesPart(m, Structure(ram, dir), PAGES);
      ok := pages.FreePhysicalPage(dir * PAGE_SIZE);
    }

    lemma BaseUsed(dir: nat, base: set<nat>, strays: set<nat>)
      requires Private(dir, base, strays)
      ensures base <= pages.used && Structure(ram, dir) !! base
    {
    }
  }
}
