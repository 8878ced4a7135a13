/** The physical page allocator: a bitmap of 32-bit words with two counters. */
module PhysicalPages {
  import opened Common

  const PAGE_SIZE: nat := 4096
  const PAGES: nat := 0x10_0000
  const WORDS: nat := 32768

  type Word = x: nat | x < U32

  /** A word of the bitmap, bit by bit. */
  type Bits = s: seq<bool> | |s| == 32 witness seq(32, _ => true)

  /** 32-bit counters wrap around. */
  function Inc(x: Word): (r: Word) {
    if x == U32 - 1 then 0 else x + 1
  }

  function Dec(x: Word): (r: Word) {
    if x == 0 then U32 - 1 else x - 1
  }

  function RoundUp4k(x: Word): (r: Word)
    ensures r % PAGE_SIZE == 0
    ensures x <= U32 - PAGE_SIZE ==> x <= r < x + PAGE_SIZE
    ensures x > U32 - PAGE_SIZE ==> r == 0
  {
    var y := (x + PAGE_SIZE - 1) % U32;
    y - y % PAGE_SIZE
  }

  /** The search of one word from a bit on: it goes up to bit 32, which the word does not have. */
  datatype Scan = Found(bit: nat) | PastTheEnd

  function ScanWord(w: Bits, bit: nat): (s: Scan)
    requires bit <= 32
    ensures s.Found? ==> bit <= s.bit < 32 && !w[s.bit] && forall b :: bit <= b < s.bit ==> w[b]
    ensures s == PastTheEnd <==> forall b :: bit <= b < 32 ==> w[b]
    decreases 32 - bit
  {
    if bit == 32 then PastTheEnd else if !w[bit] then Found(bit) else ScanWord(w, bit + 1)
  }

  ghost function BalanceOf(free: Word, taken: Word, pages: nat): (r: (int, int)) {
    ((free + pages) % U32, (taken - pages) % U32)
  }

  lemma Round(x: int)
    ensures (x + U32) % U32 == x % U32
  {
  }

  /** Taking a page keeps the balance, and so does giving one back. */
  lemma BalanceKept(free: Word, taken: Word, pages: nat)
    ensures BalanceOf(Dec(free), Inc(taken), pages + 1) == BalanceOf(free, taken, pages)
    ensures pages > 0 ==> BalanceOf(Inc(free), Dec(taken), pages - 1) == BalanceOf(free, taken, pages)
  {
    Round(free + pages);
    Round(free + pages - U32);
    Round(taken - pages);
    Round(taken - pages - U32);
  }

  lemma SameModulo(a: Word, b: Word, n: int)
    requires (a + n) % U32 == (b + n) % U32
    ensures a == b
  {
  }

  lemma BalanceTells(free: Word, taken: Word, free': Word, taken': Word, pages: nat)
    requires BalanceOf(free, taken, pages) == BalanceOf(free', taken', pages)
    ensures free' == free && taken' == taken
  {
    SameModulo(free, free', pages);
    SameModulo(taken, taken', 0 - pages);
  }

  /** The balance and the number of used pages tell the counters. */
  lemma CountersTell(free: Word, taken: Word, free': Word, taken': Word, pages: nat, pages': nat)
    requires BalanceOf(free, taken, pages) == BalanceOf(free', taken', pages')
    ensures pages' == pages ==> free' == free && taken' == taken
    ensures pages' == pages + 1 ==> free' == Dec(free) && taken' == Inc(taken)
  {
    hide Inc, Dec, BalanceOf;
    BalanceKept(free, taken, pages);
    if pages' == pages {
      BalanceTells(free, taken, free', taken', pages);
    } else if pages' == pages + 1 {
      BalanceTells(Dec(free), Inc(taken), free', taken', pages');
    }
  }

  /** Pages 0 to n. */
  ghost function AllPages(n: nat): (r: set<nat>)
    ensures forall p :: p in r <==> 0 <= p < n
  {
    if n == 0 then {} else AllPages(n - 1) + {n - 1}
  }

  /** The word has no free bit: it is 0xFFFFFFFF. */
  predicate Full(w: Bits) {
    forall b :: 0 <= b < 32 ==> w[b]
  }

  /** The pages that are marked free for a stretch of memory at boot. */
  predicate MarkedAvailable(address: Word, size: Word, f: int) {
    RoundUp4k(address) / PAGE_SIZE <= f < RoundUp4k(address) / PAGE_SIZE + size / PAGE_SIZE
  }

  /** The pages that are marked used for a stretch of memory at boot. */
  predicate MarkedUnavailable(address: Word, size: Word, f: int) {
    address / PAGE_SIZE <= f < address / PAGE_SIZE + RoundUp4k(size) / PAGE_SIZE
  }

  lemma RegionFits(address: Word, size: Word)
    requires address + size <= U32
    ensures RoundUp4k(address) / PAGE_SIZE + size / PAGE_SIZE <= PAGES
  {
  }

  /**
   * The pages marked free lie inside the stretch exactly when what is lost at its start by rounding up
   * is no more than what is lost at its end by rounding down.
   */
  lemma MarkedInside(address: Word, size: Word)
    requires address + size <= U32 && PAGE_SIZE <= size && address <= U32 - PAGE_SIZE
    ensures (forall f :: MarkedAvailable(address, size, f) ==>
             address <= f * PAGE_SIZE && f * PAGE_SIZE + PAGE_SIZE <= address + size) <==>
              RoundUp4k(address) - address <= size % PAGE_SIZE
  {
    hide RoundUp4k;
    var last := RoundUp4k(address) / PAGE_SIZE + size / PAGE_SIZE - 1;
    assert MarkedAvailable(address, size, last);
    assert last * PAGE_SIZE + PAGE_SIZE == RoundUp4k(address) + size - size % PAGE_SIZE;
  }

  class PageBitmap {
    const words: array<Bits>
    var totalFree: Word
    var totalUsed: Word
    ghost var used: set<nat>

    /** The used pages, bit by bit. */
    ghost predicate Mirrors()
      reads `used, words
    {
      && words.Length == WORDS
      && (forall i, b :: 0 <= i < WORDS && 0 <= b < 32 ==> (words[i][b] <==> 32 * i + b in used))
      && (forall p :: p in used ==> p < PAGES)
    }

    ghost predicate Valid()
      reads this, words
    {
      Mirrors() && 0 in used
    }

    /** What the counters keep: free pages plus used pages, and used pages as counted against those marked. */
    ghost function Balance(): (r: (int, int))
      reads this
    {
      BalanceOf(totalFree, totalUsed, |used|)
    }

    /** All pages marked used, as at boot before the available memory is known. */
    constructor ()
      ensures Valid() && fresh(words) && totalFree == 0 && totalUsed == 0
      ensures forall p: nat :: p < PAGES ==> p in used
    {
      words := new Bits[WORDS](_ => seq(32, _ => true));
      totalFree, totalUsed := 0, 0;
      used := AllPages(PAGES);
    }

    method PageIsUsed(page: nat) returns (r: bool)
      requires Valid() && page < PAGES
      ensures r <==> page in used
    {
      r := words[page / 32][page % 32];
      assert page == 32 * (page / 32) + page % 32;
    }

    method MarkPage(page: nat, taken: bool)
      requires Mirrors() && page < PAGES
      modifies `used, words
      ensures Mirrors() && used == if taken then old(used) + {page} else old(used) - {page}
    {
      var i, b := page / 32, page % 32;
      words[i] := words[i][b := taken];
      used := if taken then used + {page} else used - {page};
      forall j, c | 0 <= j < WORDS && 0 <= c < 32
        ensures words[j][c] <==> 32 * j + c in used
      {
        assert 32 * j + c == page <==> j == i && c == b;
      }
    }

    /** Frees the pages of a stretch of memory that the loader says is there. */
    method MarkPhysicalMemoryAvailable(address: Word, size: Word)
      requires Mirrors() && address + size <= U32
      modifies this, words
      ensures Mirrors() && (forall p :: p in used <==> p in old(used) && !MarkedAvailable(address, size, p))
      ensures totalFree == (old(totalFree) + size / PAGE_SIZE) % U32 && totalUsed == old(totalUsed)
    {
      hide Mirrors, RoundUp4k;
      RegionFits(address, size);
      var first, count := RoundUp4k(address) / PAGE_SIZE, size / PAGE_SIZE;
      for i := 0 to count
        invariant Mirrors() && totalFree == old(totalFree) && totalUsed == old(totalUsed)
        invariant forall p :: p in used <==> p in old(used) && !(first <= p < first + i)
      {
        MarkPage(first + i, false);
      }
      totalFree := (totalFree + count) % U32;
    }

    /** Takes the pages of a stretch of memory. */
    method MarkPhysicalMemoryUnavailable(address: Word, size: Word)
      requires Mirrors() && address + size <= U32 - PAGE_SIZE
      modifies this, words
      ensures Mirrors() && (forall p :: p in used <==> p in old(used) || MarkedUnavailable(address, size, p))
      ensures totalUsed == (old(totalUsed) + RoundUp4k(size) / PAGE_SIZE) % U32 && totalFree == old(totalFree)
    {
      hide Mirrors, RoundUp4k;
      var first, count := address / PAGE_SIZE, RoundUp4k(size) / PAGE_SIZE;
      for i := 0 to count
        invariant Mirrors() && totalFree == old(totalFree) && totalUsed == old(totalUsed)
        invariant forall p :: p in used <==> p in old(used) || first <= p < first + i
      {
        MarkPage(first + i, true);
      }
      totalUsed := (totalUsed + count) % U32;
    }

    /** The search from a page never looks at bit 32 of a word. */
    ghost predicate Searchable(min: nat)
      reads words
    {
      && words.Length == WORDS && min < PAGES
      && (Full(words[min / 32]) || ScanWord(words[min / 32], min % 32) != PastTheEnd)
    }

    /** The first page of a word, and any page with a free page after it in its word, will do. */
    lemma WhenSearchable(min: nat)
      requires Valid() && min < PAGES
      ensures min % 32 == 0 ==> Searchable(min)
      ensures Searchable(min) <==>
                || (forall q :: min - min % 32 <= q < min - min % 32 + 32 ==> q in used)
                || exists q :: min <= q < min - min % 32 + 32 && q !in used
    {
      var i, w := min / 32, words[min / 32];
      assert min - min % 32 == 32 * i;
      var s := ScanWord(w, min % 32);
      if s.Found? {
        assert 32 * i + s.bit !in used;
      }
      if Full(w) {
        forall q | 32 * i <= q < 32 * i + 32
          ensures q in used
        {
          assert w[q - 32 * i];
        }
      }
      if forall q :: 32 * i <= q < 32 * i + 32 ==> q in used {
        forall b | 0 <= b < 32
          ensures w[b]
        {
          assert 32 * i + b in used;
        }
      }
      if q :| min <= q < 32 * i + 32 && q !in used {
        assert !w[q - 32 * i];
      }
    }

    /** All pages of [lo, hi) are used. */
    ghost predicate Taken(lo: nat, hi: nat)
      reads this
    {
      forall p :: lo <= p < hi ==> p in used
    }

    lemma PartOfWord(i: nat, from: nat, to: nat)
      requires Valid() && i < WORDS && from <= to <= 32 && forall b :: from <= b < to ==> words[i][b]
      ensures Taken(32 * i + from, 32 * i + to)
    {
      forall p | 32 * i + from <= p < 32 * i + to
        ensures p in used
      {
        assert words[i][p - 32 * i];
      }
    }

    lemma WholeWord(i: nat)
      requires Valid() && i < WORDS && Full(words[i])
      ensures Taken(32 * i, 32 * i + 32)
    {
      PartOfWord(i, 0, 32);
    }

    method FindFirstFreePhysicalPageNo(min: nat) returns (found: bool, page: nat)
      requires Valid() && Searchable(min)
      ensures found ==> min <= page < PAGES && page !in used && Taken(min, page)
      ensures !found ==> Taken(min, PAGES)
    {
      var starting := min / 32;
      page := 0;
      for i := starting to WORDS
        invariant Taken(min, 32 * i)
      {
        if Full(words[i]) {
          WholeWord(i);
          continue;
        }
        var startingBit := if i == starting then min % 32 else 0;
        var bit := startingBit;
        while bit < 32 && words[i][bit]
          invariant startingBit <= bit <= 32 && forall b :: startingBit <= b < bit ==> words[i][b]
        {
          bit := bit + 1;
        }
        assert bit < 32;
        PartOfWord(i, startingBit, bit);
        return true, 32 * i + bit;
      }
      return false, 0;
    }

    /** Takes the first free page at or above an address; none when the kernel panics. */
    method AllocatePhysicalPage(minimum: Word) returns (ok: bool, address: Word)
      requires Valid() && Searchable(RoundUp4k(minimum) / PAGE_SIZE)
      modifies this, words
      ensures Valid()
      ensures var min := RoundUp4k(minimum) / PAGE_SIZE;
              if ok then
                var page := address / PAGE_SIZE;
                && address == page * PAGE_SIZE && 0 < page && min <= page < PAGES && page !in old(used)
                && old(Taken(min, page))
                && used == old(used) + {page} && Balance() == old(Balance())
              else
                unchanged(this) && unchanged(words) && Taken(min, PAGES)
    {
      hide BalanceOf, Inc, Dec, RoundUp4k;
      BalanceKept(totalFree, totalUsed, |used|);
      var min := RoundUp4k(minimum) / PAGE_SIZE;
      var page;
      address := 0;
      ok, page := FindFirstFreePhysicalPageNo(min);
      if !ok {
        return;
      }
      MarkPage(page, true);
      totalFree := Dec(totalFree);
      totalUsed := Inc(totalUsed);
      address := page * PAGE_SIZE;
    }

    /** Gives a page back; freeing an unused one makes the kernel panic. */
    method FreePhysicalPage(address: Word) returns (ok: bool)
      requires Valid() && address >= PAGE_SIZE
      modifies this, words
      ensures Valid() && (ok <==> address / PAGE_SIZE in old(used))
      ensures if ok then used == old(used) - {address / PAGE_SIZE} && Balance() == old(Balance())
              else unchanged(this) && unchanged(words)
    {
      hide BalanceOf, Inc, Dec;
      BalanceKept(totalFree, totalUsed, |used|);
      var page := address / PAGE_SIZE;
      ok := PageIsUsed(page);
      if !ok {
        return;
      }
      MarkPage(page, false);
      totalFree := Inc(totalFree);
      totalUsed := Dec(totalUsed);
    }
  }

  /** The pages of the stretches that the loader names. */
  ghost predicate InSome(regions: seq<(Word, Word)>, n: nat, p: int)
    requires n <= |regions|
  {
    exists k :: 0 <= k < n && MarkedAvailable(regions[k].0, regions[k].1, p)
  }

  lemma InSomeNone(regions: seq<(Word, Word)>)
    ensures forall p: nat :: !InSome(regions, 0, p)
  {
  }

  lemma InSomeStep(regions: seq<(Word, Word)>, n: nat)
    requires n < |regions|
    ensures forall p: nat :: InSome(regions, n + 1, p) <==>
              InSome(regions, n, p) || MarkedAvailable(regions[n].0, regions[n].1, p)
  {
    hide MarkedAvailable;
  }

  ghost function RegionPages(regions: seq<(Word, Word)>, n: nat): (r: nat)
    requires n <= |regions|
  {
    if n == 0 then 0 else RegionPages(regions, n - 1) + regions[n - 1].1 / PAGE_SIZE
  }

  /** The state of the pages at boot: the stretches of memory are free, but for page 0 and the kernel. */
  method InitPhysicalMemoryManager(regions: seq<(Word, Word)>, kernelStart: Word, kernelEnd: Word)
    returns (pages: PageBitmap)
    requires forall k :: 0 <= k < |regions| ==> regions[k].0 + regions[k].1 <= U32
    requires kernelStart <= kernelEnd <= U32 - PAGE_SIZE
    ensures fresh(pages) && fresh(pages.words) && pages.Valid()
    ensures forall p: nat :: p < PAGES ==>
              (p !in pages.used <==>
               p != 0 && InSome(regions, |regions|, p) && !MarkedUnavailable(kernelStart, kernelEnd - kernelStart, p))
    ensures pages.totalFree == RegionPages(regions, |regions|) % U32
    ensures pages.totalUsed == RoundUp4k(kernelEnd - kernelStart) / PAGE_SIZE
  {
    hide PageBitmap.Mirrors, MarkedAvailable, MarkedUnavailable, RoundUp4k, InSome;
    InSomeNone(regions);
    pages := new PageBitmap();
    for k := 0 to |regions|
      invariant pages.Mirrors() && pages.totalUsed == 0 && pages.totalFree == RegionPages(regions, k) % U32
      invariant forall p: nat :: p < PAGES ==> (p in pages.used <==> !InSome(regions, k, p))
    {
      InSomeStep(regions, k);
      pages.MarkPhysicalMemoryAvailable(regions[k].0, regions[k].1);
    }
    pages.MarkPage(0, true);
    pages.MarkPhysicalMemoryUnavailable(kernelStart, kernelEnd - kernelStart);
  }

  /** Page 32 is free and page 63 is used: a search from page 63 does look at bit 32. */
  method UnsearchablePage() returns (pages: PageBitmap)
    ensures pages.Valid() && 32 !in pages.used && 63 in pages.used && !pages.Searchable(63)
  {
    pages := new PageBitmap();
    pages.MarkPage(32, false);
    pages.WhenSearchable(63);
  }

  /** A stretch of memory that ends inside page 1, all of which is marked free. */
  method MarksBeyond() returns (pages: PageBitmap)
    ensures fresh(pages) && pages.Mirrors() && 1 !in pages.used && 0x800 + 0x1000 < 2 * PAGE_SIZE
  {
    pages := new PageBitmap();
    pages.MarkPhysicalMemoryAvailable(0x800, 0x1000);
  }
}
