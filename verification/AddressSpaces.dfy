/** Whole lives of page directories, one after the other, from the boot of the kernel on. */
module AddressSpaces {
  import opened Common
  import opened PhysicalPages
  import opened PageTables
  import opened PageCounts
  import opened Paging

  /** What a program asks for: a directory, then one range after the other. */
  datatype Life = Life(mapKernel: bool, ranges: seq<(Word, Word)>)

  /** No loop of a life runs over the top of the address space. */
  ghost predicate InBounds(kernel: Kernel, life: Life) {
    && (life.mapKernel ==> kernel.start % PAGE_SIZE == 0 && kernel.end + PAGE_SIZE < U32)
    && forall k :: 0 <= k < |life.ranges| ==> life.ranges[k].1 + PAGE_SIZE <= U32
  }

  /** No virtual page is mapped in m or visited by a range before. */
  ghost predicate Apart(m: map<nat, nat>, ranges: seq<(Word, Word)>) {
    && (forall k, v :: 0 <= k < |ranges| && Visited(ranges[k].0, ranges[k].1, v) ==> v !in m)
    && (forall j, k, v :: 0 <= j < k < |ranges| && Visited(ranges[j].0, ranges[j].1, v) ==>
        !Visited(ranges[k].0, ranges[k].1, v))
  }

  /** The ranges of a program lie above the kernel, whole pages, each where the last one ended or later. */
  lemma ProgramApart(kernel: Kernel, m: map<nat, nat>, ranges: seq<(Word, Word)>)
    requires forall v :: v in m ==> kernel.Has(v)
    requires forall k :: 0 <= k < |ranges| ==>
               kernel.end < ranges[k].0 <= ranges[k].1 && ranges[k].0 % PAGE_SIZE == 0 == ranges[k].1 % PAGE_SIZE
    requires forall j, k :: 0 <= j < k < |ranges| ==> ranges[j].1 <= ranges[k].0
    ensures Apart(m, ranges)
  {
    forall k, v | 0 <= k < |ranges| && Visited(ranges[k].0, ranges[k].1, v)
      ensures ranges[k].0 <= v * PAGE_SIZE < ranges[k].1
    {
    }
  }

  /** The translations after the pages of all ranges were given. */
  ghost function MappedAfter(m: map<nat, nat>, given: seq<map<nat, nat>>): (m': map<nat, nat>) {
    if given == [] then m else given[|given| - 1] + MappedAfter(m, given[..|given| - 1])
  }

  /** The given pages that the directory will not give back. */
  ghost function Kept(kernel: Kernel, m: map<nat, nat>, given: seq<map<nat, nat>>): (fs: set<nat>) {
    if given == [] then {}
    else
      var front := given[..|given| - 1];
      Kept(kernel, m, front) + Lost(kernel, MappedAfter(m, front), given[|given| - 1])
  }

  lemma NextGiven(kernel: Kernel, m: map<nat, nat>, given: seq<map<nat, nat>>, g: map<nat, nat>)
    ensures MappedAfter(m, given + [g]) == g + MappedAfter(m, given)
    ensures Kept(kernel, m, given + [g]) == Kept(kernel, m, given) + Lost(kernel, MappedAfter(m, given), g)
  {
    assert (given + [g])[..|given|] == given;
  }

  /** A virtual page is mapped when it was before, or when a range visited it. */
  lemma {:induction false} MappedKeys(m: map<nat, nat>, given: seq<map<nat, nat>>, v: nat)
    ensures v in MappedAfter(m, given) <==> v in m || exists j :: 0 <= j < |given| && v in given[j]
  {
    if given != [] {
      var front := given[..|given| - 1];
      MappedKeys(m, front, v);
      if v in MappedAfter(m, front) && v !in m {
        var j :| 0 <= j < |front| && v in front[j];
        assert v in given[j];
      }
    }
  }

  lemma {:induction false} KeptIn(kernel: Kernel, m: map<nat, nat>, given: seq<map<nat, nat>>, j: nat, v: nat)
    requires j < |given| && v in given[j] && (v in MappedAfter(m, given[..j]) || kernel.Has(given[j][v]))
    ensures given[j][v] in Kept(kernel, m, given)
  {
    var front := given[..|given| - 1];
    if j < |front| {
      assert front[..j] == given[..j];
      KeptIn(kernel, m, front, j, v);
    }
  }

  lemma {:induction false} KeptFrom(kernel: Kernel, m: map<nat, nat>, given: seq<map<nat, nat>>, f: nat)
    returns (j: nat, v: nat)
    requires f in Kept(kernel, m, given)
    ensures j < |given| && v in given[j] && given[j][v] == f && (v in MappedAfter(m, given[..j]) || kernel.Has(f))
  {
    var front := given[..|given| - 1];
    if f in Kept(kernel, m, front) {
      j, v := KeptFrom(kernel, m, front, f);
      assert front[..j] == given[..j];
    } else {
      j := |front|;
      v :| v in given[j] && given[j][v] == f && (v in MappedAfter(m, front) || kernel.Has(f));
    }
  }

  /** Every visited virtual page was given a page that was not in made, from the first megabyte on. */
  ghost predicate Given(ranges: seq<(Word, Word)>, given: seq<map<nat, nat>>, made: set<nat>) {
    && |given| <= |ranges|
    && (forall k, v :: 0 <= k < |given| ==> (v in given[k] <==> Visited(ranges[k].0, ranges[k].1, v)))
    && (forall k, v :: 0 <= k < |given| && v in given[k] ==>
        given[k][v] !in made && FIRST_DATA_PAGE <= given[k][v] < PAGES)
  }

  /** The first page that a program could be given. */
  ghost predicate IsFirst(made: set<nat>, f: nat) {
    FIRST_DATA_PAGE <= f < PAGES && f !in made && forall q :: FIRST_DATA_PAGE <= q < f ==> q in made
  }

  ghost predicate Has(given: seq<map<nat, nat>>, f: nat) {
    exists k, v :: 0 <= k < |given| && v in given[k] && given[k][v] == f
  }

  /** Some range among the first n is not empty. */
  ghost predicate Busy(ranges: seq<(Word, Word)>, n: nat)
    requires n <= |ranges|
  {
    exists k :: 0 <= k < n && ranges[k].0 < ranges[k].1
  }

  lemma NothingGiven(kernel: Kernel, m: map<nat, nat>, ranges: seq<(Word, Word)>, used: set<nat>, made: set<nat>)
    requires LowestFirst(used, made)
    ensures Kept(kernel, m, []) == {} && MappedAfter(m, []) == m && Given(ranges, [], made) && !Busy(ranges, 0)
    ensures used <= made
  {
  }

  /** One more range is served. */
  lemma NextServed(ranges: seq<(Word, Word)>, given: seq<map<nat, nat>>, made: set<nat>, used: set<nat>,
                   g: map<nat, nat>)
    requires Given(ranges, given, made) && |given| < |ranges| && made <= used
    requires !Busy(ranges, |given|) ==> used == made
    requires Backed(g, used, ranges[|given|].0, ranges[|given|].1, PAGES)
    requires Busy(ranges, |given|) ==> forall f :: IsFirst(made, f) ==> Has(given, f)
    ensures Given(ranges, given + [g], made)
    ensures Busy(ranges, |given| + 1) <==> Busy(ranges, |given|) || ranges[|given|].0 < ranges[|given|].1
    ensures Busy(ranges, |given| + 1) ==> forall f :: IsFirst(made, f) ==> Has(given + [g], f)
  {
    var n := |given|;
    if Busy(ranges, n + 1) {
      forall f | IsFirst(made, f)
        ensures Has(given + [g], f)
      {
        if Busy(ranges, n) {
          var k, v :| 0 <= k < |given| && v in given[k] && given[k][v] == f;
          assert (given + [g])[k][v] == f;
        } else {
          var v := ranges[n].0 / PAGE_SIZE;
          assert Visited(ranges[n].0, ranges[n].1, v);
          assert (given + [g])[n][v] == f;
        }
      }
    }
  }

  /**
   * The life of a directory: made, given some ranges, destroyed. The used pages are then those from
   * before and those of the given pages that were lost. Used pages keep their words. When memory runs
   * out on the way the kernel panics.
   */
  method Lifetime(mem: Memory, life: Life) returns (ok: bool, ghost made: set<nat>, ghost given: seq<map<nat, nat>>)
    requires mem.pages.Valid() && InBounds(mem.kernel, life)
    modifies mem`ram, mem.pages, mem.pages.words
    ensures mem.pages.Valid() && mem.pages.Balance() == old(mem.pages.Balance())
    ensures !ok ==> mem.pages.Taken(FIRST_DATA_PAGE, PAGES)
    ensures ok ==> LowestFirst(old(mem.pages.used), made)
    ensures ok ==> |made - old(mem.pages.used)| == StructureSize(mem.kernel, life.mapKernel)
    ensures ok ==> |given| == |life.ranges| && Given(life.ranges, given, made)
    ensures ok && Busy(life.ranges, |life.ranges|) ==> forall f :: IsFirst(made, f) ==> Has(given, f)
    ensures ok ==> mem.pages.used == old(mem.pages.used) + Kept(mem.kernel, Initial(mem.kernel, life.mapKernel), given)
    ensures ok ==> Intact(old(mem.ram), old(mem.pages.used), {}, mem.ram)
  {
    hide Mapping, Structure, PageBitmap.Valid, PageBitmap.Balance, Directory, Account, Initial;
    hide StructureSize, Intact, Kept, MappedAfter, Given, Busy, IsFirst, Has, LowestFirst;
    var dir;
    ghost var base, m := mem.pages.used, Initial(mem.kernel, life.mapKernel);
    made, given := {}, [];
    ok, dir := mem.CreatePageDirectory(life.mapKernel);
    if !ok {
      return;
    }
    made := mem.pages.used;
    NothingGiven(mem.kernel, m, life.ranges, base, made);
    for n := 0 to |life.ranges|
      invariant |given| == n && mem.Private(dir, base, Kept(mem.kernel, m, given))
      invariant Mapping(mem.ram, dir) == MappedAfter(m, given)
      invariant mem.pages.Balance() == old(mem.pages.Balance())
      invariant made <= mem.pages.used && (!Busy(life.ranges, n) ==> mem.pages.used == made)
      invariant Given(life.ranges, given, made)
      invariant Busy(life.ranges, n) ==> forall f :: IsFirst(made, f) ==> Has(given, f)
      invariant Intact(old(mem.ram), base, {}, mem.ram) && base <= made
    {
      mem.BaseUsed(dir, base, Kept(mem.kernel, m, given));
      ghost var used, ram, st, g := mem.pages.used, mem.ram, Structure(mem.ram, dir), map[];
      ok, g := mem.AllocateVirtualMemoryRange(life.ranges[n].0, life.ranges[n].1, dir, base,
                                              Kept(mem.kernel, m, given));
      if !ok {
        return;
      }
      NextServed(life.ranges, given, made, used, g);
      NextGiven(mem.kernel, m, given, g);
      IntactSteps(old(mem.ram), base, {}, ram, used, st, mem.ram);
      given := given + [g];
    }
    ok := mem.DestroyPageDirectory(dir, base, Kept(mem.kernel, m, given));
  }

  lemma MappedBefore(m: map<nat, nat>, given: seq<map<nat, nat>>, k: nat, v: nat)
    requires k <= |given|
    ensures v !in MappedAfter(m, given[..k]) <==> v !in m && forall j :: 0 <= j < k ==> v !in given[j]
  {
    hide MappedAfter;
    MappedKeys(m, given[..k], v);
    assert forall j :: 0 <= j < k ==> given[..k][j] == given[j];
  }

  /** The ranges are apart exactly when no visited virtual page has been mapped by then. */
  lemma ApartMeans(m: map<nat, nat>, ranges: seq<(Word, Word)>, given: seq<map<nat, nat>>, made: set<nat>)
    requires Given(ranges, given, made) && |given| == |ranges|
    ensures Apart(m, ranges) <==> forall k, v :: 0 <= k < |given| && v in given[k] ==> v !in MappedAfter(m, given[..k])
  {
    hide MappedAfter, Visited;
    if Apart(m, ranges) {
      forall k, v | 0 <= k < |given| && v in given[k]
        ensures v !in MappedAfter(m, given[..k])
      {
        assert Visited(ranges[k].0, ranges[k].1, v);
        MappedBefore(m, given, k, v);
      }
    } else if forall k, v :: 0 <= k < |given| && v in given[k] ==> v !in MappedAfter(m, given[..k]) {
      forall k, v | 0 <= k < |ranges| && Visited(ranges[k].0, ranges[k].1, v)
        ensures v !in m && forall j :: 0 <= j < k ==> !Visited(ranges[j].0, ranges[j].1, v)
      {
        assert v in given[k];
        MappedBefore(m, given, k, v);
      }
    }
  }

  /** Nothing is lost exactly when the ranges are apart and no given page lies in the kernel range. */
  lemma NothingLost(kernel: Kernel, m: map<nat, nat>, ranges: seq<(Word, Word)>, given: seq<map<nat, nat>>,
                    made: set<nat>)
    requires Given(ranges, given, made) && |given| == |ranges|
    ensures Kept(kernel, m, given) == {} <==>
              Apart(m, ranges) && forall k, v :: 0 <= k < |given| && v in given[k] ==> !kernel.Has(given[k][v])
  {
    hide Kept, MappedAfter, Apart, Given;
    ApartMeans(m, ranges, given, made);
    if f :| f in Kept(kernel, m, given) {
      var k, v := KeptFrom(kernel, m, given, f);
    } else {
      forall k, v | 0 <= k < |given| && v in given[k]
        ensures v !in MappedAfter(m, given[..k]) && !kernel.Has(given[k][v])
      {
        if v in MappedAfter(m, given[..k]) || kernel.Has(given[k][v]) {
          KeptIn(kernel, m, given, k, v);
        }
      }
    }
  }

  /** When the ranges are apart, the lost pages are the given ones of the kernel range. */
  lemma LostWhenApart(kernel: Kernel, m: map<nat, nat>, ranges: seq<(Word, Word)>, given: seq<map<nat, nat>>,
                      made: set<nat>, f: nat)
    requires Given(ranges, given, made) && |given| == |ranges|
    ensures kernel.Has(f) && Has(given, f) ==> f in Kept(kernel, m, given)
    ensures f in Kept(kernel, m, given) ==> Has(given, f) && (Apart(m, ranges) ==> kernel.Has(f))
  {
    hide Kept, MappedAfter, Apart, Given;
    if f in Kept(kernel, m, given) {
      ApartMeans(m, ranges, given, made);
      var k, v := KeptFrom(kernel, m, given, f);
    } else if Has(given, f) && kernel.Has(f) {
      var k, v :| 0 <= k < |given| && v in given[k] && given[k][v] == f;
      KeptIn(kernel, m, given, k, v);
    }
  }

  lemma LostIsNew(kernel: Kernel, m: map<nat, nat>, ranges: seq<(Word, Word)>, given: seq<map<nat, nat>>,
                  made: set<nat>, f: nat)
    requires Given(ranges, given, made) && f in Kept(kernel, m, given)
    ensures f !in made && FIRST_DATA_PAGE <= f < PAGES
  {
    var k, v := KeptFrom(kernel, m, given, f);
  }

  /** All pages of the kernel range from the first megabyte on are used. */
  ghost predicate Covered(kernel: Kernel, used: set<nat>) {
    forall f: nat :: FIRST_DATA_PAGE <= f < PAGES && kernel.Has(f) ==> f in used
  }

  lemma NoneFromCovered(kernel: Kernel, m: map<nat, nat>, ranges: seq<(Word, Word)>, given: seq<map<nat, nat>>,
                        used: set<nat>, made: set<nat>)
    requires Given(ranges, given, made) && LowestFirst(used, made) && Covered(kernel, used)
    ensures Kept(kernel, m, given) !! used
    ensures forall k, v :: 0 <= k < |given| && v in given[k] ==> !kernel.Has(given[k][v])
  {
    if f :| f in Kept(kernel, m, given) && f in used {
      LostIsNew(kernel, m, ranges, given, made, f);
    }
  }

  /**
   * When all pages of the kernel range that a program could be given are used, the life of a directory
   * restores the used pages and the counters exactly if its ranges are apart.
   */
  method CleanLifetime(mem: Memory, life: Life) returns (ok: bool)
    requires mem.pages.Valid() && InBounds(mem.kernel, life) && Covered(mem.kernel, mem.pages.used)
    modifies mem`ram, mem.pages, mem.pages.words
    ensures mem.pages.Valid() && mem.pages.Balance() == old(mem.pages.Balance())
    ensures !ok ==> mem.pages.Taken(FIRST_DATA_PAGE, PAGES)
    ensures ok ==> (mem.pages.used == old(mem.pages.used) <==> Apart(Initial(mem.kernel, life.mapKernel), life.ranges))
    ensures ok && Apart(Initial(mem.kernel, life.mapKernel), life.ranges) ==>
              mem.pages.totalFree == old(mem.pages.totalFree) && mem.pages.totalUsed == old(mem.pages.totalUsed)
    ensures ok ==> Intact(old(mem.ram), old(mem.pages.used), {}, mem.ram)
  {
    hide PageBitmap.Valid, BalanceOf, Initial, Kept, Busy, IsFirst;
    hide Has, Apart, Intact, StructureSize, Given, LowestFirst;
    ghost var made, given, used;
    used := mem.pages.used;
    ok, made, given := Lifetime(mem, life);
    if !ok {
      return;
    }
    ghost var m := Initial(mem.kernel, life.mapKernel);
    NothingLost(mem.kernel, m, life.ranges, given, made);
    NoneFromCovered(mem.kernel, m, life.ranges, given, used, made);
    CountersTell(old(mem.pages.totalFree), old(mem.pages.totalUsed), mem.pages.totalFree, mem.pages.totalUsed, |used|,
                 |mem.pages.used|);
  }

  /** The free pages of the first megabyte. */
  ghost function LowFree(used: set<nat>): (ps: set<nat>) {
    set p: nat | p < FIRST_DATA_PAGE && p !in used
  }

  /** A new directory takes the first page above the kernel exactly when the first megabyte has too few free ones. */
  lemma LowRoom(used: set<nat>, made: set<nat>, end: nat)
    requires LowestFirst(used, made) && FIRST_DATA_PAGE <= end && end !in used
    requires forall p :: FIRST_DATA_PAGE <= p < end ==> p in used
    ensures end in made <==> |LowFree(used)| < |made - used|
  {
    if end in made {
      SubsetSize(LowFree(used), made - used - {end});
    } else {
      SubsetSize(made - used, LowFree(used));
    }
  }

  /** The page at the inclusive end of the kernel range, or nothing. */
  ghost function EndIf(kernel: Kernel, kept: bool): (ps: set<nat>) {
    if kept then {kernel.end / PAGE_SIZE} else {}
  }

  /** Whether a life keeps the page at the inclusive end of the kernel range: it is free and is the first one given. */
  ghost predicate KeepsEnd(kernel: Kernel, used: set<nat>, life: Life) {
    && kernel.end / PAGE_SIZE !in used
    && Busy(life.ranges, |life.ranges|) && StructureSize(kernel, life.mapKernel) <= |LowFree(used)|
  }

  /** The kernel range ends on a page boundary, and is used from the first megabyte up to there. */
  ghost predicate AlignedEnd(kernel: Kernel, used: set<nat>) {
    && kernel.end % PAGE_SIZE == 0 && kernel.start <= kernel.end && FIRST_DATA_ADDRESS <= kernel.end
    && forall p :: FIRST_DATA_PAGE <= p < kernel.end / PAGE_SIZE ==> p in used
  }

  lemma NeverGiven(ranges: seq<(Word, Word)>, given: seq<map<nat, nat>>, made: set<nat>, f: nat)
    requires |given| == |ranges| && Given(ranges, given, made) && Has(given, f)
    ensures f !in made && FIRST_DATA_PAGE <= f < PAGES && Busy(ranges, |ranges|)
  {
    var k, v :| 0 <= k < |given| && v in given[k] && given[k][v] == f;
    assert Visited(ranges[k].0, ranges[k].1, v);
    assert ranges[k].0 < ranges[k].1;
  }

  /** What a life leaves behind, by the pages given. */
  lemma EndKept(kernel: Kernel, life: Life, used: set<nat>, made: set<nat>, given: seq<map<nat, nat>>)
    requires AlignedEnd(kernel, used) && LowestFirst(used, made)
    requires |made - used| == StructureSize(kernel, life.mapKernel)
    requires |given| == |life.ranges| && Given(life.ranges, given, made)
    requires Busy(life.ranges, |life.ranges|) ==> forall f :: IsFirst(made, f) ==> Has(given, f)
    ensures var e, kept := kernel.end / PAGE_SIZE, Kept(kernel, Initial(kernel, life.mapKernel), given);
            && (e in kept <==> KeepsEnd(kernel, used, life))
            && (Apart(Initial(kernel, life.mapKernel), life.ranges) ==>
                kept == EndIf(kernel, KeepsEnd(kernel, used, life)))
  {
    hide Kept, Apart, Given, Busy, Has, StructureSize, Initial;
    var m, e := Initial(kernel, life.mapKernel), kernel.end / PAGE_SIZE;
    assert e !in made ==> IsFirst(made, e);
    if e !in used {
      LowRoom(used, made, e);
    }
    forall f: nat
      ensures f in Kept(kernel, m, given) ==> f !in made && FIRST_DATA_PAGE <= f && Busy(life.ranges, |life.ranges|)
      ensures f in Kept(kernel, m, given) ==> Has(given, f)
      ensures f in Kept(kernel, m, given) && Apart(m, life.ranges) ==> f == e
      ensures kernel.Has(f) && Has(given, f) ==> f in Kept(kernel, m, given)
    {
      LostWhenApart(kernel, m, life.ranges, given, made, f);
      if Has(given, f) {
        NeverGiven(life.ranges, given, made, f);
      }
    }
  }

  /**
   * From a kernel range that ends on a page boundary, the life of a directory keeps the page at that end
   * exactly when that page is free, some range is not empty, and the first megabyte has room for the
   * directory. With ranges that are apart it keeps nothing else.
   */
  method EndLifetime(mem: Memory, life: Life) returns (ok: bool)
    requires mem.pages.Valid() && InBounds(mem.kernel, life) && AlignedEnd(mem.kernel, mem.pages.used)
    modifies mem`ram, mem.pages, mem.pages.words
    ensures mem.pages.Valid() && mem.pages.Balance() == old(mem.pages.Balance())
    ensures !ok ==> mem.pages.Taken(FIRST_DATA_PAGE, PAGES)
    ensures ok ==> old(mem.pages.used) <= mem.pages.used && Intact(old(mem.ram), old(mem.pages.used), {}, mem.ram)
    ensures ok ==> var e := mem.kernel.end / PAGE_SIZE;
              && (e in mem.pages.used <==> e in old(mem.pages.used) || KeepsEnd(mem.kernel, old(mem.pages.used), life))
              && (Apart(Initial(mem.kernel, life.mapKernel), life.ranges) ==>
                    mem.pages.used ==
                    old(mem.pages.used) + EndIf(mem.kernel, KeepsEnd(mem.kernel, old(mem.pages.used), life)))
  {
    hide PageBitmap.Valid, PageBitmap.Balance, Initial, Kept, Busy, IsFirst;
    hide Has, Apart, Intact, Given, StructureSize, KeepsEnd, LowestFirst;
    ghost var made, given;
    ghost var used := mem.pages.used;
    ok, made, given := Lifetime(mem, life);
    if ok {
      EndKept(mem.kernel, life, used, made, given);
    }
  }

  /** Some life keeps the page at the end of the kernel range. */
  ghost predicate SomeKeepsEnd(kernel: Kernel, used: set<nat>, lives: seq<Life>, n: nat)
    requires n <= |lives|
  {
    exists i :: 0 <= i < n && KeepsEnd(kernel, used, lives[i])
  }

  lemma NoneKeepsEnd(kernel: Kernel, used: set<nat>, lives: seq<Life>)
    ensures !SomeKeepsEnd(kernel, used, lives, 0)
    ensures SomeKeepsEnd(kernel, used, lives, |lives|) ==> kernel.end / PAGE_SIZE !in used
  {
  }

  /** The page at the end changes what a life keeps only by being used. */
  lemma KeptOnce(kernel: Kernel, used: set<nat>, lives: seq<Life>, n: nat)
    requires n < |lives| && FIRST_DATA_ADDRESS <= kernel.end
    ensures !KeepsEnd(kernel, used + {kernel.end / PAGE_SIZE}, lives[n])
    ensures SomeKeepsEnd(kernel, used, lives, n + 1) <==>
              SomeKeepsEnd(kernel, used, lives, n) || KeepsEnd(kernel, used, lives[n])
  {
  }

  /**
   * Any number of lives, one after the other: they keep the page at the end of the kernel range once, if
   * one of them keeps it, and restore everything else. The counters follow, and used pages keep their words.
   */
  method Lifetimes(mem: Memory, lives: seq<Life>) returns (ok: bool)
    requires mem.pages.Valid() && AlignedEnd(mem.kernel, mem.pages.used)
    requires forall i :: 0 <= i < |lives| ==>
               InBounds(mem.kernel, lives[i]) && Apart(Initial(mem.kernel, lives[i].mapKernel), lives[i].ranges)
    modifies mem`ram, mem.pages, mem.pages.words
    ensures mem.pages.Valid()
    ensures !ok ==> mem.pages.Taken(FIRST_DATA_PAGE, PAGES)
    ensures ok ==>
              mem.pages.used ==
              old(mem.pages.used) + EndIf(mem.kernel, SomeKeepsEnd(mem.kernel, old(mem.pages.used), lives, |lives|))
    ensures ok ==> if SomeKeepsEnd(mem.kernel, old(mem.pages.used), lives, |lives|) then
                     && mem.pages.totalFree == Dec(old(mem.pages.totalFree))
                     && mem.pages.totalUsed == Inc(old(mem.pages.totalUsed))
                   else
                     mem.pages.totalFree == old(mem.pages.totalFree) && mem.pages.totalUsed == old(mem.pages.totalUsed)
    ensures ok ==> Intact(old(mem.ram), old(mem.pages.used), {}, mem.ram)
  {
    hide PageBitmap.Valid, BalanceOf, Initial, Apart, Intact, KeepsEnd, InBounds, SomeKeepsEnd, Inc, Dec;
    ghost var used, e := mem.pages.used, mem.kernel.end / PAGE_SIZE;
    IntactNone(mem.ram, used, {});
    NoneKeepsEnd(mem.kernel, used, lives);
    ok := true;
    for i := 0 to |lives|
      invariant ok && mem.pages.Valid() && mem.pages.Balance() == old(mem.pages.Balance())
      invariant mem.pages.used == used + EndIf(mem.kernel, SomeKeepsEnd(mem.kernel, used, lives, i))
      invariant Intact(old(mem.ram), used, {}, mem.ram)
    {
      KeptOnce(mem.kernel, used, lives, i);
      ghost var now, ram := mem.pages.used, mem.ram;
      ok := EndLifetime(mem, lives[i]);
      if !ok {
        return;
      }
      IntactSteps(old(mem.ram), used, {}, ram, now, {}, mem.ram);
    }
    CountersTell(old(mem.pages.totalFree), old(mem.pages.totalUsed), mem.pages.totalFree, mem.pages.totalUsed, |used|,
                 |mem.pages.used|);
  }

  /** The heap and the RAM disk lie between the kernel and the end of its range. */
  const HEAP_AND_RAMDISK: Word := 0x80_0000

  /** Where the kernel range ends: after the kernel, the heap and the RAM disk, on a page boundary. */
  function KernelRangeEnd(kernelEnd: Word): (end: Word)
    requires kernelEnd + HEAP_AND_RAMDISK + 2 * PAGE_SIZE < U32
    ensures end % PAGE_SIZE == 0 && kernelEnd <= end && end + PAGE_SIZE < U32
  {
    RoundUp4k(kernelEnd) + HEAP_AND_RAMDISK
  }

  /** The pages that are free at boot: those of the memory the loader names, but for page 0 and the kernel. */
  ghost predicate BootMarks(regions: seq<(Word, Word)>, end: Word, marks: set<nat>) {
    forall p: nat :: p < PAGES ==>
      (p !in marks <==> p != 0 && InSome(regions, |regions|, p) && !(FIRST_DATA_PAGE <= p < end / PAGE_SIZE))
  }

  /**
   * Whether, by the boot marks, a life keeps the page at the end of the kernel range: the first megabyte
   * has room for the directory of the kernel and for that of the program.
   */
  ghost predicate KeepsEndFromBoot(kernel: Kernel, marks: set<nat>, life: Life) {
    && kernel.end / PAGE_SIZE !in marks && Busy(life.ranges, |life.ranges|)
    && StructureSize(kernel, true) + StructureSize(kernel, life.mapKernel) <= |LowFree(marks)|
  }

  lemma AfterKernelDirectory(kernel: Kernel, marks: set<nat>, booted: set<nat>, life: Life)
    requires AlignedEnd(kernel, marks) && LowestFirst(marks, booted) && |booted - marks| == StructureSize(kernel, true)
    ensures KeepsEnd(kernel, booted, life) <==> KeepsEndFromBoot(kernel, marks, life)
  {
    hide Busy, StructureSize;
    var e := kernel.end / PAGE_SIZE;
    if e !in marks {
      LowRoom(marks, booted, e);
      if e !in booted {
        assert LowFree(marks) == LowFree(booted) + (booted - marks);
      }
    }
  }

  /** A machine with 128 MB and a kernel of half a megabyte; a program of two pages with a stack of 260 KB below it. */
  const MACHINE: seq<(Word, Word)> := [(0, 0x9_F000), (0x10_0000, 0x7F0_0000)]
  const SMALL_KERNEL := Kernel(0, 0x98_0000)
  const PROGRAM := Life(true, [(0x7FB_F000, 0x800_2000)])

  lemma FreeAtBoot(marks: set<nat>, k: nat, p: nat)
    requires BootMarks(MACHINE, SMALL_KERNEL.end, marks)
    requires k < 2 && 0 < p < PAGES
    requires MACHINE[k].0 / PAGE_SIZE <= p < MACHINE[k].0 / PAGE_SIZE + MACHINE[k].1 / PAGE_SIZE
    requires p < FIRST_DATA_PAGE || SMALL_KERNEL.end / PAGE_SIZE <= p
    ensures p !in marks
  {
    hide RoundUp4k;
    assert MarkedAvailable(MACHINE[k].0, MACHINE[k].1, p);
  }

  lemma EightPages()
    ensures var low: set<nat> := {1, 2, 3, 4, 5, 6, 7, 8}; |low| == 8
  {
  }

  lemma MachineMarks(marks: set<nat>)
    requires BootMarks(MACHINE, SMALL_KERNEL.end, marks)
    ensures 0x980 !in marks && 8 <= |LowFree(marks)|
  {
    hide BootMarks;
    FreeAtBoot(marks, 1, 0x980);
    var low: set<nat> := {1, 2, 3, 4, 5, 6, 7, 8};
    forall p | p in low
      ensures p in LowFree(marks)
    {
      FreeAtBoot(marks, 0, p);
    }
    SubsetSize(low, LowFree(marks));
    EightPages();
  }

  /** On that machine the program keeps the page at the end of the kernel range. */
  lemma ProgramKeepsEnd(marks: set<nat>)
    requires BootMarks(MACHINE, SMALL_KERNEL.end, marks)
    ensures KernelRangeEnd(0x18_0000) == SMALL_KERNEL.end && InBounds(SMALL_KERNEL, PROGRAM)
    ensures Apart(Initial(SMALL_KERNEL, true), PROGRAM.ranges) && KeepsEndFromBoot(SMALL_KERNEL, marks, PROGRAM)
  {
    hide BootMarks, LowFree, Apart;
    ProgramApart(SMALL_KERNEL, Initial(SMALL_KERNEL, true), PROGRAM.ranges);
    assert PROGRAM.ranges[0].0 < PROGRAM.ranges[0].1;
    MachineMarks(marks);
  }

  /** Words kept, translations kept. */
  lemma MappingKept(mem: Ram, mem': Ram, dir: nat, used: set<nat>)
    requires Directory(mem, dir, used) && Intact(mem, used, {}, mem')
    ensures Mapping(mem', dir) == Mapping(mem, dir)
  {
    forall v | 0 <= v < PAGES
      ensures PageOf(mem', dir, v) == PageOf(mem, dir, v)
    {
    }
  }

  /** The pages are marked, and the kernel gets its directory. */
  method StartKernel(regions: seq<(Word, Word)>, ram: Ram, kernelEnd: Word)
    returns (ok: bool, mem: Memory, dir: nat, ghost marks: set<nat>)
    requires forall k :: 0 <= k < |regions| ==> regions[k].0 + regions[k].1 <= U32
    requires FIRST_DATA_ADDRESS <= kernelEnd && kernelEnd + HEAP_AND_RAMDISK + 2 * PAGE_SIZE < U32
    ensures fresh(mem) && fresh(mem.pages) && fresh(mem.pages.words) && mem.pages.Valid()
    ensures mem.kernel == Kernel(0, KernelRangeEnd(kernelEnd)) && BootMarks(regions, mem.kernel.end, marks)
    ensures !ok ==> mem.pages.Taken(FIRST_DATA_PAGE, PAGES)
    ensures ok <==> Suffice(marks, 0, StructureSize(mem.kernel, true))
    ensures ok ==> LowestFirst(marks, mem.pages.used) && |mem.pages.used - marks| == StructureSize(mem.kernel, true)
    ensures ok ==> mem.Private(dir, marks, {}) && Mapping(mem.ram, dir) == Initial(mem.kernel, true)
  {
    hide PageBitmap.Valid, PageBitmap.Balance, Initial, Mapping, Directory, Structure, Account, StructureSize;
    hide LowestFirst, InSome, RoundUp4k, KernelRangeEnd, Suffice, Spent;
    var end := KernelRangeEnd(kernelEnd);
    var pages := InitPhysicalMemoryManager(regions, FIRST_DATA_ADDRESS, end);
    mem := new Memory(pages, ram, Kernel(0, end));
    marks := pages.used;
    assert BootMarks(regions, end, marks);
    ok, dir := mem.CreatePageDirectory(true);
  }

  lemma BootAligned(regions: seq<(Word, Word)>, kernel: Kernel, marks: set<nat>, booted: set<nat>)
    requires kernel.start == 0 && kernel.end % PAGE_SIZE == 0 && FIRST_DATA_ADDRESS <= kernel.end
    requires BootMarks(regions, kernel.end, marks) && LowestFirst(marks, booted)
    ensures AlignedEnd(kernel, marks) && AlignedEnd(kernel, booted)
  {
    hide InSome;
  }

  lemma KeptFromBoot(kernel: Kernel, marks: set<nat>, booted: set<nat>, lives: seq<Life>)
    requires AlignedEnd(kernel, marks) && LowestFirst(marks, booted) && |booted - marks| == StructureSize(kernel, true)
    ensures SomeKeepsEnd(kernel, booted, lives, |lives|) <==>
              exists i :: 0 <= i < |lives| && KeepsEndFromBoot(kernel, marks, lives[i])
  {
    hide KeepsEnd, KeepsEndFromBoot, LowestFirst, StructureSize;
    forall i | 0 <= i < |lives|
      ensures KeepsEnd(kernel, booted, lives[i]) <==> KeepsEndFromBoot(kernel, marks, lives[i])
    {
      AfterKernelDirectory(kernel, marks, booted, lives[i]);
    }
  }

  /**
   * From the boot on, programs live one after the other. The page at the end of the kernel range is kept
   * once, exactly when it was free and some program that asks for memory found room for its directory in
   * the first megabyte. Nothing else is kept, and the directory of the kernel still maps the kernel range
   * to itself.
   */
  method Boot(regions: seq<(Word, Word)>, ram: Ram, kernelEnd: Word, lives: seq<Life>)
    returns (ok: bool, mem: Memory, dir: nat, ghost marks: set<nat>, ghost booted: set<nat>)
    requires forall k :: 0 <= k < |regions| ==> regions[k].0 + regions[k].1 <= U32
    requires FIRST_DATA_ADDRESS <= kernelEnd && kernelEnd + HEAP_AND_RAMDISK + 2 * PAGE_SIZE < U32
    requires var kernel := Kernel(0, KernelRangeEnd(kernelEnd));
             forall i :: 0 <= i < |lives| ==>
                 InBounds(kernel, lives[i]) && Apart(Initial(kernel, lives[i].mapKernel), lives[i].ranges)
    ensures mem.pages.Valid() && mem.kernel == Kernel(0, KernelRangeEnd(kernelEnd))
    ensures BootMarks(regions, mem.kernel.end, marks)
    ensures !ok ==> mem.pages.Taken(FIRST_DATA_PAGE, PAGES)
    ensures ok ==> LowestFirst(marks, booted) && |booted - marks| == StructureSize(mem.kernel, true)
    ensures ok ==>
              var kept := exists i :: 0 <= i < |lives| && KeepsEndFromBoot(mem.kernel, marks, lives[i]);
              mem.pages.used == booted + EndIf(mem.kernel, kept)
    ensures ok ==> dir < PAGES && Mapping(mem.ram, dir) == Initial(mem.kernel, true)
  {
    hide PageBitmap.Valid, Initial, Apart, Intact, SomeKeepsEnd, KeepsEndFromBoot, Mapping, Directory;
    hide StructureSize, LowestFirst, InBounds, BootMarks, AlignedEnd, KernelRangeEnd, Inc, Dec, PageBitmap.Taken;
    ok, mem, dir, marks := StartKernel(regions, ram, kernelEnd);
    booted := mem.pages.used;
    if !ok {
      return;
    }
    BootAligned(regions, mem.kernel, marks, booted);
    ghost var words := mem.ram;
    ok := Lifetimes(mem, lives);
    if !ok {
      return;
    }
    mem.DirectoryPage(words, dir, booted);
    MappingKept(words, mem.ram, dir, booted);
    KeptFromBoot(mem.kernel, marks, booted, lives);
  }
}
