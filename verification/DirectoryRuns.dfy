/** Any number of page directories at once: every interleaving of making, filling and destroying them. */
module DirectoryRuns {
  import opened Common
  import opened PhysicalPages
  import opened PageTables
  import opened PageCounts
  import opened Paging
  import opened AddressSpaces

  /** A step of the kernel, where i is the place of a live directory. */
  datatype Step =
    | Create(mapKernel: bool)
    | Allocate(i: nat, start: Word, end: Word)
    | Destroy(i: nat)

  /** Physical memory, the used pages, the live directories, and the used pages that no directory will give back. */
  datatype World = World(ram: Ram, used: set<nat>, dirs: seq<nat>, kept: set<nat>)

  /** The used pages are those of rest and those of one owner each. */
  ghost predicate Split(owns: seq<set<nat>>, rest: set<nat>, used: set<nat>) {
    && rest <= used
    && (forall i :: 0 <= i < |owns| ==> owns[i] <= used && owns[i] !! rest)
    && (forall i, j :: 0 <= i < j < |owns| ==> owns[i] !! owns[j])
    && (forall p :: p in used && p !in rest ==> exists i :: 0 <= i < |owns| && p in owns[i])
  }

  lemma SplitAppend(owns: seq<set<nat>>, rest: set<nat>, used: set<nat>, own: set<nat>)
    requires Split(owns, rest, used) && own !! used
    ensures Split(owns + [own], rest, used + own)
  {
    var owns' := owns + [own];
    forall p | p in used + own && p !in rest
      ensures exists i :: 0 <= i < |owns'| && p in owns'[i]
    {
      if p in own {
        assert p in owns'[|owns|];
      } else {
        var i :| 0 <= i < |owns| && p in owns[i];
        assert p in owns'[i];
      }
    }
  }

  lemma SplitChange(owns: seq<set<nat>>, rest: set<nat>, used: set<nat>, i: nat, own: set<nat>, lost: set<nat>)
    requires Split(owns, rest, used) && i < |owns| && own !! used - owns[i] && lost !! used + own
    ensures Split(owns[i := own], rest + lost, used - owns[i] + own + lost)
  {
    var owns', used' := owns[i := own], used - owns[i] + own + lost;
    forall p | p in used' && p !in rest + lost
      ensures exists j :: 0 <= j < |owns'| && p in owns'[j]
    {
      if p in own {
        assert p in owns'[i];
      } else {
        var j :| 0 <= j < |owns| && p in owns[j];
        assert p in owns'[j];
      }
    }
  }

  /** The sequence without its i-th element. */
  function Drop<T>(s: seq<T>, i: nat): (r: seq<T>)
    requires i < |s|
  {
    s[..i] + s[i + 1..]
  }

  lemma SplitDrop(owns: seq<set<nat>>, rest: set<nat>, used: set<nat>, i: nat)
    requires Split(owns, rest, used) && i < |owns|
    ensures Split(Drop(owns, i), rest, used - owns[i])
  {
    var owns' := Drop(owns, i);
    forall p | p in used - owns[i] && p !in rest
      ensures exists j :: 0 <= j < |owns'| && p in owns'[j]
    {
      var j :| 0 <= j < |owns| && p in owns[j];
      assert p in owns'[if j < i then j else j - 1];
    }
  }

  /** The pages of a directory: the directory itself, its tables, and the data pages it maps. */
  ghost function Own(k: Kernel, ram: Ram, d: nat): (ps: set<nat>) {
    if d < PAGES then Structure(ram, d) + Frames(k, Mapping(ram, d)) else {}
  }

  ghost function Owns(k: Kernel, ram: Ram, dirs: seq<nat>): (pss: seq<set<nat>>)
    ensures |pss| == |dirs| && forall i :: 0 <= i < |dirs| ==> pss[i] == Own(k, ram, dirs[i])
  {
    seq(|dirs|, i requires 0 <= i < |dirs| => Own(k, ram, dirs[i]))
  }

  ghost predicate Healthy(k: Kernel, ram: Ram, used: set<nat>, d: nat) {
    Directory(ram, d, used) && Exclusive(k, Mapping(ram, d), Structure(ram, d))
  }

  /**
   * Every live directory is well formed, no two share a table or a page of their own, and every used page
   * is one of base, or kept, or belongs to one directory.
   */
  ghost predicate Spaces(k: Kernel, base: set<nat>, w: World) {
    && (forall i :: 0 <= i < |w.dirs| ==> Healthy(k, w.ram, w.used, w.dirs[i]))
    && Split(Owns(k, w.ram, w.dirs), base + w.kept, w.used)
  }

  /** The structure of d keeps its words, and so d is as before. */
  lemma SameDirectory(k: Kernel, ram: Ram, used: set<nat>, d: nat, ram': Ram, used': set<nat>)
    requires Healthy(k, ram, used, d) && Own(k, ram, d) <= used'
    requires forall p :: p in Own(k, ram, d) && p in Structure(ram, d) && p < PAGES ==> ram'[p] == ram[p]
    ensures Mapping(ram', d) == Mapping(ram, d) && Own(k, ram', d) == Own(k, ram, d) && Healthy(k, ram', used', d)
  {
    forall i: nat | i < ENTRIES
      ensures Table(ram', d, i) == Table(ram, d, i)
      ensures Table(ram, d, i).Some? ==> Table(ram, d, i).value in Structure(ram, d)
      ensures Table(ram, d, i).Some? ==> ram'[Table(ram, d, i).value] == ram[Table(ram, d, i).value]
    {
      assert d in Structure(ram, d);
      assert Table(ram, d, i).Some? ==> Table(ram, d, i).value in TablesBelow(ram, d, ENTRIES);
    }
    SameStructure(ram, ram', d);
    forall v | 0 <= v < PAGES
      ensures PageOf(ram', d, v) == PageOf(ram, d, v)
    {
    }
  }

  /** The directory has the same translation and the same pages. */
  ghost predicate Unmoved(k: Kernel, ram: Ram, ram': Ram, d: nat) {
    d < PAGES && Mapping(ram', d) == Mapping(ram, d) && Own(k, ram', d) == Own(k, ram, d)
  }

  lemma OwnsApart(k: Kernel, base: set<nat>, w: World, i: nat, j: nat)
    requires Spaces(k, base, w) && i < |w.dirs| && j < |w.dirs| && i != j
    ensures Own(k, w.ram, w.dirs[i]) !! Own(k, w.ram, w.dirs[j])
  {
    var owns := Owns(k, w.ram, w.dirs);
    assert owns[i] !! owns[j];
  }

  lemma OwnUsed(k: Kernel, base: set<nat>, w: World, i: nat)
    requires Spaces(k, base, w) && i < |w.dirs|
    ensures Healthy(k, w.ram, w.used, w.dirs[i]) && w.dirs[i] < PAGES
    ensures Structure(w.ram, w.dirs[i]) <= Own(k, w.ram, w.dirs[i])
    ensures Own(k, w.ram, w.dirs[i]) <= w.used && Own(k, w.ram, w.dirs[i]) !! base + w.kept
  {
    var owns := Owns(k, w.ram, w.dirs);
    assert owns[i] <= w.used && owns[i] !! base + w.kept;
  }

  /** A directory away from what changed. */
  lemma Bystander(k: Kernel, base: set<nat>, w: World, st: set<nat>, ram': Ram, used': set<nat>, j: nat)
    requires Spaces(k, base, w) && j < |w.dirs| && Intact(w.ram, w.used, st, ram')
    requires st !! Own(k, w.ram, w.dirs[j]) && Own(k, w.ram, w.dirs[j]) <= used'
    ensures Unmoved(k, w.ram, ram', w.dirs[j]) && Healthy(k, ram', used', w.dirs[j])
  {
    hide Own, Healthy, Mapping, Structure, Spaces;
    OwnUsed(k, base, w, j);
    SameDirectory(k, w.ram, w.used, w.dirs[j], ram', used');
  }

  lemma IsHealthy(k: Kernel, ram: Ram, used: set<nat>, d: nat, base: set<nat>, strays: set<nat>)
    requires Directory(ram, d, used) && Account(k, base, strays, Structure(ram, d), Mapping(ram, d), used)
    ensures d < PAGES && Healthy(k, ram, used, d)
  {
  }

  lemma Created(k: Kernel, base: set<nat>, w: World, d: nat, ram': Ram, used': set<nat>)
    requires Spaces(k, base, w) && Intact(w.ram, w.used, {}, ram') && Directory(ram', d, used')
    requires Account(k, w.used, {}, Structure(ram', d), Mapping(ram', d), used')
    ensures Spaces(k, base, World(ram', used', w.dirs + [d], w.kept))
    ensures Own(k, ram', d) == used' - w.used && forall j :: 0 <= j < |w.dirs| ==> Unmoved(k, w.ram, ram', w.dirs[j])
  {
    hide Mapping, Structure, Directory, Frames, Exclusive, Intact, Split, Healthy;
    forall j | 0 <= j < |w.dirs|
      ensures Unmoved(k, w.ram, ram', w.dirs[j]) && Healthy(k, ram', used', w.dirs[j])
    {
      OwnUsed(k, base, w, j);
      Bystander(k, base, w, {}, ram', used', j);
    }
    IsHealthy(k, ram', used', d, w.used, {});
    SplitAppend(Owns(k, w.ram, w.dirs), base + w.kept, w.used, Own(k, ram', d));
    assert used' == w.used + Own(k, ram', d);
    assert Owns(k, ram', w.dirs + [d]) == Owns(k, w.ram, w.dirs) + [Own(k, ram', d)];
  }

  lemma Allocated(k: Kernel, base: set<nat>, w: World, i: nat, lost: set<nat>, ram': Ram, used': set<nat>)
    requires Spaces(k, base, w) && i < |w.dirs| && w.dirs[i] < PAGES && lost !! w.used
    requires Intact(w.ram, w.used, Structure(w.ram, w.dirs[i]), ram') && Directory(ram', w.dirs[i], used')
    requires Account(k, w.used - Own(k, w.ram, w.dirs[i]), lost, Structure(ram', w.dirs[i]), Mapping(ram', w.dirs[i]),
                     used')
    ensures Spaces(k, base, World(ram', used', w.dirs, w.kept + lost))
    ensures forall j :: 0 <= j < |w.dirs| && j != i ==> Unmoved(k, w.ram, ram', w.dirs[j])
  {
    hide Mapping, Structure, Directory, Frames, Exclusive, Intact, Split, Healthy;
    var d := w.dirs[i];
    OwnUsed(k, base, w, i);
    forall j | 0 <= j < |w.dirs| && j != i
      ensures Unmoved(k, w.ram, ram', w.dirs[j]) && Healthy(k, ram', used', w.dirs[j])
    {
      OwnUsed(k, base, w, j);
      OwnsApart(k, base, w, i, j);
      Bystander(k, base, w, Structure(w.ram, d), ram', used', j);
    }
    IsHealthy(k, ram', used', d, w.used - Own(k, w.ram, d), lost);
    SplitChange(Owns(k, w.ram, w.dirs), base + w.kept, w.used, i, Own(k, ram', d), lost);
    assert Owns(k, ram', w.dirs) == Owns(k, w.ram, w.dirs)[i := Own(k, ram', d)];
    assert base + w.kept + lost == base + (w.kept + lost);
    assert used' == w.used - Own(k, w.ram, d) + Own(k, ram', d) + lost;
  }

  lemma Destroyed(k: Kernel, base: set<nat>, w: World, i: nat)
    requires Spaces(k, base, w) && i < |w.dirs|
    ensures Spaces(k, base, World(w.ram, w.used - Own(k, w.ram, w.dirs[i]), Drop(w.dirs, i), w.kept))
  {
    hide Mapping, Structure, Directory, Frames, Exclusive, Split, Own, Healthy;
    var used' := w.used - Own(k, w.ram, w.dirs[i]);
    forall j | 0 <= j < |w.dirs| && j != i
      ensures Healthy(k, w.ram, used', w.dirs[j])
    {
      OwnUsed(k, base, w, j);
      OwnsApart(k, base, w, i, j);
      SameDirectory(k, w.ram, w.used, w.dirs[j], w.ram, used');
    }
    SplitDrop(Owns(k, w.ram, w.dirs), base + w.kept, w.used, i);
    assert Owns(k, w.ram, Drop(w.dirs, i)) == Drop(Owns(k, w.ram, w.dirs), i);
  }

  /** The directory at place i has the tables of a range, and the pages for it are taken. */
  ghost predicate Paid(w: World, d: nat, start: Word, end: Word, w': World)
    requires d < PAGES
  {
    var first, past := start / PAGE_SIZE, Past(start, end);
    Tabled(w.ram, w'.ram, d, first, past) && Spent(w.used, w'.used, past - first, |Missing(w.ram, d, first, past)|)
  }

  /** The free pages are enough for a step. */
  ghost predicate Affordable(k: Kernel, step: Step, w: World) {
    match step
    case Create(mapKernel) => Suffice(w.used, 0, StructureSize(k, mapKernel))
    case Allocate(i, start, end) =>
      i < |w.dirs| && w.dirs[i] < PAGES ==>
        var first, past := start / PAGE_SIZE, Past(start, end);
        Suffice(w.used, past - first, |Missing(w.ram, w.dirs[i], first, past)|)
    case Destroy(_) => true
  }

  /** The directory at place i was given pages for a range, and the others are as before. */
  ghost predicate Granted(k: Kernel, w: World, i: nat, start: Word, end: Word, given: map<nat, nat>, w': World)
    requires i < |w.dirs| && w.dirs[i] < PAGES
  {
    && w'.dirs == w.dirs && Backed(given, w.used, start, end, PAGES)
    && Mapping(w'.ram, w.dirs[i]) == given + Mapping(w.ram, w.dirs[i])
    && w'.kept == w.kept + Lost(k, Mapping(w.ram, w.dirs[i]), given) && Paid(w, w.dirs[i], start, end, w')
    && forall j :: 0 <= j < |w.dirs| && j != i ==> Unmoved(k, w.ram, w'.ram, w.dirs[j])
  }

  /** Directory d is new, and the others are as before. */
  ghost predicate Made(k: Kernel, w: World, mapKernel: bool, d: nat, w': World) {
    && w'.dirs == w.dirs + [d] && w'.kept == w.kept && d < PAGES
    && LowestFirst(w.used, w'.used) && |w'.used - w.used| == StructureSize(k, mapKernel)
    && Own(k, w'.ram, d) == w'.used - w.used
    && Mapping(w'.ram, d) == Initial(k, mapKernel)
    && forall j :: 0 <= j < |w.dirs| ==> Unmoved(k, w.ram, w'.ram, w.dirs[j])
  }

  /** What a step does. One that names no live directory does nothing. */
  ghost predicate StepOf(k: Kernel, step: Step, w: World, w': World) {
    match step
    case Create(mapKernel) => exists d :: Made(k, w, mapKernel, d, w')
    case Allocate(i, start, end) =>
      if i < |w.dirs| && w.dirs[i] < PAGES then exists given :: Granted(k, w, i, start, end, given, w') else w' == w
    case Destroy(i) =>
      w' == if i < |w.dirs| then World(w.ram, w.used - Own(k, w.ram, w.dirs[i]), Drop(w.dirs, i), w.kept) else w
  }

  /** No loop of a step runs over the top of the address space. */
  predicate InLimits(k: Kernel, step: Step) {
    match step
    case Create(mapKernel) => mapKernel ==> k.start % PAGE_SIZE == 0 && k.end + PAGE_SIZE < U32
    case Allocate(_, _, end) => end + PAGE_SIZE <= U32
    case Destroy(_) => true
  }

  lemma OwnAccount(k: Kernel, ram: Ram, used: set<nat>, d: nat)
    requires d < PAGES && Healthy(k, ram, used, d) && Own(k, ram, d) <= used
    ensures Account(k, used - Own(k, ram, d), {}, Structure(ram, d), Mapping(ram, d), used)
  {
    hide Mapping, Structure, Directory, Frames;
  }

  /** Each live directory has its pages for itself. */
  lemma PrivateAt(mem: Memory, base: set<nat>, w: World, i: nat)
    requires mem.pages.Valid() && mem.ram == w.ram && mem.pages.used == w.used && Spaces(mem.kernel, base, w)
    requires i < |w.dirs|
    ensures w.dirs[i] < PAGES && mem.Private(w.dirs[i], w.used - Own(mem.kernel, w.ram, w.dirs[i]), {})
  {
    hide Mapping, Structure, Directory, Frames, Exclusive, Split, Spaces, PageBitmap.Valid;
    OwnUsed(mem.kernel, base, w, i);
    mem.DirectoryPage(w.ram, w.dirs[i], w.used);
    OwnAccount(mem.kernel, w.ram, w.used, w.dirs[i]);
  }

  lemma LostNew(k: Kernel, m: map<nat, nat>, given: map<nat, nat>, used: set<nat>, start: Word, end: Word)
    requires Backed(given, used, start, end, PAGES)
    ensures Lost(k, m, given) !! used
  {
  }

  method Perform(mem: Memory, step: Step, dirs: seq<nat>, ghost base: set<nat>, ghost kept: set<nat>)
    returns (ok: bool, dirs': seq<nat>, ghost kept': set<nat>)
    requires mem.pages.Valid() && Spaces(mem.kernel, base, World(mem.ram, mem.pages.used, dirs, kept))
    requires InLimits(mem.kernel, step)
    modifies mem`ram, mem.pages, mem.pages.words
    ensures mem.pages.Valid() && mem.pages.Balance() == old(mem.pages.Balance())
    ensures !ok ==> mem.pages.Taken(FIRST_DATA_PAGE, PAGES)
    ensures ok <==> Affordable(mem.kernel, step, old(World(mem.ram, mem.pages.used, dirs, kept)))
    ensures ok ==> var w' := World(mem.ram, mem.pages.used, dirs', kept');
              && Spaces(mem.kernel, base, w')
              && StepOf(mem.kernel, step, old(World(mem.ram, mem.pages.used, dirs, kept)), w')
  {
    hide Mapping, Structure, Directory, Account, Spaces, Own, PageBitmap.Valid;
    hide PageBitmap.Balance, Initial, StructureSize, Backed, Lost, Intact, LowestFirst;
    hide Suffice, Spent, Missing, Tabled, Past;
    ghost var w := World(mem.ram, mem.pages.used, dirs, kept);
    ok, dirs', kept' := true, dirs, kept;
    match step {
      case Create(mapKernel) =>
        var d;
        ok, d := mem.CreatePageDirectory(mapKernel);
        if ok {
          Created(mem.kernel, base, w, d, mem.ram, mem.pages.used);
          dirs' := dirs + [d];
          assert Made(mem.kernel, w, mapKernel, d, World(mem.ram, mem.pages.used, dirs', kept));
        }
      case Allocate(i, start, end) =>
        if i < |dirs| {
          PrivateAt(mem, base, w, i);
          ghost var given;
          ok, given := mem.AllocateVirtualMemoryRange(start, end, dirs[i], w.used - Own(mem.kernel, w.ram, dirs[i]),
                                                      {});
          if ok {
            ghost var lost := Lost(mem.kernel, Mapping(w.ram, dirs[i]), given);
            LostNew(mem.kernel, Mapping(w.ram, dirs[i]), given, w.used, start, end);
            assert {} + lost == lost;
            Allocated(mem.kernel, base, w, i, lost, mem.ram, mem.pages.used);
            kept' := kept + lost;
            assert Granted(mem.kernel, w, i, start, end, given, World(mem.ram, mem.pages.used, dirs, kept'));
          }
        }
      case Destroy(i) =>
        if i < |dirs| {
          PrivateAt(mem, base, w, i);
          Destroyed(mem.kernel, base, w, i);
          ok := mem.DestroyPageDirectory(dirs[i], w.used - Own(mem.kernel, w.ram, dirs[i]), {});
          dirs' := Drop(dirs, i);
          assert mem.pages.used == w.used - Own(mem.kernel, w.ram, dirs[i]);
        }
    }
  }

  /**
   * Each step was affordable and led from one of these worlds to the next, in all of which the directories are apart.
   */
  ghost predicate Traced(k: Kernel, base: set<nat>, steps: seq<Step>, trace: seq<World>, n: nat) {
    && n <= |steps| && |trace| == n + 1
    && (forall j :: 0 <= j <= n ==> Spaces(k, base, trace[j]))
    && (forall j :: 0 <= j < n ==> Affordable(k, steps[j], trace[j]) && StepOf(k, steps[j], trace[j], trace[j + 1]))
  }

  lemma TracedStep(k: Kernel, base: set<nat>, steps: seq<Step>, trace: seq<World>, n: nat, w: World)
    requires Traced(k, base, steps, trace, n) && n < |steps| && Spaces(k, base, w)
    requires Affordable(k, steps[n], trace[n]) && StepOf(k, steps[n], trace[n], w)
    ensures Traced(k, base, steps, trace + [w], n + 1)
  {
    hide Spaces, StepOf, Affordable;
    var trace' := trace + [w];
    forall j | 0 <= j < n + 1
      ensures Affordable(k, steps[j], trace'[j]) && StepOf(k, steps[j], trace'[j], trace'[j + 1])
    {
      assert j < n ==> trace'[j + 1] == trace[j + 1];
    }
  }

  /** Any interleaving of steps on any number of directories, up to the first one that is not affordable. */
  method Run(mem: Memory, steps: seq<Step>, dirs: seq<nat>, ghost base: set<nat>, ghost kept: set<nat>)
    returns (ok: bool, dirs': seq<nat>, ghost trace: seq<World>)
    requires mem.pages.Valid() && Spaces(mem.kernel, base, World(mem.ram, mem.pages.used, dirs, kept))
    requires forall j :: 0 <= j < |steps| ==> InLimits(mem.kernel, steps[j])
    modifies mem`ram, mem.pages, mem.pages.words
    ensures mem.pages.Valid() && mem.pages.Balance() == old(mem.pages.Balance())
    ensures !ok ==> mem.pages.Taken(FIRST_DATA_PAGE, PAGES)
    ensures trace != [] && Traced(mem.kernel, base, steps, trace, |trace| - 1)
    ensures trace[0] == old(World(mem.ram, mem.pages.used, dirs, kept))
    ensures ok <==> |trace| == |steps| + 1
    ensures !ok ==> !Affordable(mem.kernel, steps[|trace| - 1], trace[|trace| - 1])
    ensures ok ==> trace[|steps|] == World(mem.ram, mem.pages.used, dirs', trace[|steps|].kept)
  {
    hide Spaces, StepOf, Affordable, InLimits, PageBitmap.Valid, PageBitmap.Balance;
    ok, dirs', trace := true, dirs, [World(mem.ram, mem.pages.used, dirs, kept)];
    ghost var kept' := kept;
    for n := 0 to |steps|
      invariant mem.pages.Valid() && mem.pages.Balance() == old(mem.pages.Balance())
      invariant ok && Traced(mem.kernel, base, steps, trace, n)
      invariant trace[0] == old(World(mem.ram, mem.pages.used, dirs, kept))
      invariant trace[n] == World(mem.ram, mem.pages.used, dirs', kept')
    {
      ghost var before := trace;
      ok, dirs', kept' := Perform(mem, steps[n], dirs', base, kept');
      if !ok {
        return;
      }
      TracedStep(mem.kernel, base, steps, before, n, World(mem.ram, mem.pages.used, dirs', kept'));
      trace := before + [World(mem.ram, mem.pages.used, dirs', kept')];
    }
  }

  /** The step asks for a virtual page that is mapped already. */
  ghost predicate Clashes(k: Kernel, step: Step, w: World) {
    && step.Allocate? && step.i < |w.dirs| && w.dirs[step.i] < PAGES
    && exists v :: Visited(step.start, step.end, v) && v in Mapping(w.ram, w.dirs[step.i])
  }

  /** The step asks for a page while the one at the end of the kernel range is free. */
  ghost predicate TakesEnd(k: Kernel, step: Step, w: World) {
    && step.Allocate? && step.i < |w.dirs| && w.dirs[step.i] < PAGES
    && step.start < step.end && k.end / PAGE_SIZE !in w.used
  }

  /** What a range loses when the kernel range ends on a page boundary and no page of the range is mapped. */
  lemma LostEnd(k: Kernel, m: map<nat, nat>, given: map<nat, nat>, used: set<nat>, start: Word, end: Word)
    requires Backed(given, used, start, end, PAGES) && AlignedEnd(k, used)
    requires forall v :: Visited(start, end, v) ==> v !in m
    ensures var e := k.end / PAGE_SIZE;
            Lost(k, m, given) == EndIf(k, start < end && e !in used)
  {
    var e, first := k.end / PAGE_SIZE, start / PAGE_SIZE;
    if start < end {
      assert Visited(start, end, first);
    }
    forall v | v in given && k.Has(given[v])
      ensures given[v] == e && e !in used && start < end
    {
      assert Visited(start, end, v);
    }
    if start < end && e !in used {
      assert given[first] == e && k.Has(e);
    }
  }

  /** What a range loses when all pages of the kernel range are used. */
  lemma LostCovered(k: Kernel, m: map<nat, nat>, given: map<nat, nat>, used: set<nat>, start: Word, end: Word)
    requires Backed(given, used, start, end, PAGES) && Covered(k, used)
    ensures Lost(k, m, given) == {} <==> forall v :: Visited(start, end, v) ==> v !in m
  {
    if v :| Visited(start, end, v) && v in m {
      assert given[v] in Lost(k, m, given);
    }
  }

  lemma StepKept(k: Kernel, base: set<nat>, step: Step, w: World, w': World)
    requires Spaces(k, base, w) && StepOf(k, step, w, w')
    ensures w.kept <= w'.kept
    ensures Covered(k, base) ==> (w'.kept == w.kept <==> !Clashes(k, step, w))
    ensures AlignedEnd(k, base) && !Clashes(k, step, w) ==>
              w'.kept == w.kept + EndIf(k, TakesEnd(k, step, w))
  {
    hide Mapping, Structure, Own, Healthy, Backed, Lost, LowestFirst, Initial, StructureSize, Visited;
    assert base <= w.used && w.kept <= w.used;
    if step.Allocate? && step.i < |w.dirs| && w.dirs[step.i] < PAGES {
      var given :| Granted(k, w, step.i, step.start, step.end, given, w');
      var m := Mapping(w.ram, w.dirs[step.i]);
      LostNew(k, m, given, w.used, step.start, step.end);
      if Covered(k, base) {
        LostCovered(k, m, given, w.used, step.start, step.end);
      }
      if AlignedEnd(k, base) && !Clashes(k, step, w) {
        LostEnd(k, m, given, w.used, step.start, step.end);
      }
    }
  }

  /** With all pages of the kernel range used, a run keeps nothing exactly when no step asks for a mapped page. */
  lemma {:induction false} NothingKept(k: Kernel, base: set<nat>, steps: seq<Step>, trace: seq<World>, n: nat)
    requires Traced(k, base, steps, trace, |steps|) && Covered(k, base) && n <= |steps|
    ensures trace[0].kept <= trace[n].kept
    ensures trace[n].kept == trace[0].kept <==> forall j :: 0 <= j < n ==> !Clashes(k, steps[j], trace[j])
  {
    hide Spaces, StepOf, Clashes, Covered;
    if n > 0 {
      NothingKept(k, base, steps, trace, n - 1);
      assert StepOf(k, steps[n - 1], trace[n - 1], trace[n]);
      StepKept(k, base, steps[n - 1], trace[n - 1], trace[n]);
    }
  }

  /**
   * With a kernel range that ends on a page boundary, a run whose steps ask for no mapped page keeps the page
   * at that end exactly when some step asks for pages while it is free, and keeps nothing else.
   */
  lemma {:induction false} EndKeptOnly(k: Kernel, base: set<nat>, steps: seq<Step>, trace: seq<World>, n: nat)
    requires Traced(k, base, steps, trace, |steps|) && AlignedEnd(k, base) && n <= |steps|
    requires forall j :: 0 <= j < n ==> !Clashes(k, steps[j], trace[j])
    ensures trace[n].kept ==
            trace[0].kept + EndIf(k, exists j :: 0 <= j < n && TakesEnd(k, steps[j], trace[j]))
  {
    hide Spaces, StepOf, Clashes, AlignedEnd, TakesEnd;
    if n > 0 {
      EndKeptOnly(k, base, steps, trace, n - 1);
      assert StepOf(k, steps[n - 1], trace[n - 1], trace[n]);
      StepKept(k, base, steps[n - 1], trace[n - 1], trace[n]);
    }
  }

  /** The step leaves the directory at place 0 alone. */
  predicate Spares(step: Step) {
    match step
    case Create(_) => true
    case Allocate(i, _, _) => i > 0
    case Destroy(i) => i > 0
  }

  lemma StepSpares(k: Kernel, base: set<nat>, step: Step, w: World, w': World)
    requires Spaces(k, base, w) && StepOf(k, step, w, w') && Spares(step) && w.dirs != []
    ensures w'.dirs != [] && w'.dirs[0] == w.dirs[0] && Unmoved(k, w.ram, w'.ram, w.dirs[0])
  {
    hide Mapping, Structure, Own, Split, Backed, Lost, LowestFirst, Initial, StructureSize;
    OwnUsed(k, base, w, 0);
  }

  lemma {:induction false} RunSpares(k: Kernel, base: set<nat>, steps: seq<Step>, trace: seq<World>, n: nat)
    requires Traced(k, base, steps, trace, |steps|) && n <= |steps| && trace[0].dirs != [] && trace[0].dirs[0] < PAGES
    requires forall j :: 0 <= j < |steps| ==> Spares(steps[j])
    ensures trace[n].dirs != [] && trace[n].dirs[0] == trace[0].dirs[0]
    ensures Unmoved(k, trace[0].ram, trace[n].ram, trace[0].dirs[0])
  {
    hide Spaces, StepOf, Mapping, Own, Spares;
    if n > 0 {
      RunSpares(k, base, steps, trace, n - 1);
      assert StepOf(k, steps[n - 1], trace[n - 1], trace[n]);
      StepSpares(k, base, steps[n - 1], trace[n - 1], trace[n]);
    }
  }

  lemma FirstSpace(k: Kernel, base: set<nat>, ram: Ram, used: set<nat>, d: nat)
    requires Directory(ram, d, used) && Account(k, base, {}, Structure(ram, d), Mapping(ram, d), used)
    ensures Spaces(k, base, World(ram, used, [d], {})) && used == base + Own(k, ram, d)
  {
    hide Mapping, Structure, Directory, Own;
    Created(k, base, World(ram, base, [], {}), d, ram, used);
    assert [] + [d] == [d];
  }

  /** With one directory left, the used pages are its own, those of base, and those kept. */
  lemma OneLeft(k: Kernel, base: set<nat>, w: World, d: nat)
    requires Spaces(k, base, w) && w.dirs == [d]
    ensures w.used == base + w.kept + Own(k, w.ram, d)
  {
    var owns := Owns(k, w.ram, w.dirs);
    assert owns[0] <= w.used;
  }

  /** A run that starts with one directory and spares it. */
  lemma RunLeaves(k: Kernel, base: set<nat>, steps: seq<Step>, trace: seq<World>)
    requires Traced(k, base, steps, trace, |steps|) && AlignedEnd(k, base)
    requires forall j :: 0 <= j < |steps| ==> Spares(steps[j])
    requires |trace[0].dirs| == 1 && trace[0].dirs[0] < PAGES && trace[0].kept == {}
    requires trace[0].used == base + Own(k, trace[0].ram, trace[0].dirs[0])
    ensures var w, w', d := trace[0], trace[|steps|], trace[0].dirs[0];
            && w'.dirs != [] && w'.dirs[0] == d && Mapping(w'.ram, d) == Mapping(w.ram, d)
            && ((forall j :: 0 <= j < |steps| ==> !Clashes(k, steps[j], trace[j])) ==>
                  w'.kept == EndIf(k, exists j :: 0 <= j < |steps| && TakesEnd(k, steps[j], trace[j])))
            && (|w'.dirs| == 1 ==> w'.used == w.used + w'.kept)
  {
    hide Mapping, Own, Spaces, StepOf, Clashes, TakesEnd, Spares, AlignedEnd;
    RunSpares(k, base, steps, trace, |steps|);
    if forall j :: 0 <= j < |steps| ==> !Clashes(k, steps[j], trace[j]) {
      EndKeptOnly(k, base, steps, trace, |steps|);
    }
    if |trace[|steps|].dirs| == 1 {
      OneLeft(k, base, trace[|steps|], trace[0].dirs[0]);
    }
  }

  /**
   * From the boot on, programs come and go in any interleaving. The directory of the kernel maps the kernel
   * range to itself throughout. When no step asks for a mapped page, the page at the end of the kernel range
   * is kept exactly when some step asks for pages while it is free, and nothing else is: when only the
   * directory of the kernel is left, the used pages are those from before and that page.
   */
  method Boot(regions: seq<(Word, Word)>, ram: Ram, kernelEnd: Word, steps: seq<Step>)
    returns (ok: bool, mem: Memory, dirs: seq<nat>, ghost marks: set<nat>, ghost booted: set<nat>,
             ghost trace: seq<World>)
    requires forall k :: 0 <= k < |regions| ==> regions[k].0 + regions[k].1 <= U32
    requires FIRST_DATA_ADDRESS <= kernelEnd && kernelEnd + HEAP_AND_RAMDISK + 2 * PAGE_SIZE < U32
    requires forall j :: 0 <= j < |steps| ==>
               InLimits(Kernel(0, KernelRangeEnd(kernelEnd)), steps[j]) && Spares(steps[j])
    ensures mem.pages.Valid() && mem.kernel == Kernel(0, KernelRangeEnd(kernelEnd))
    ensures BootMarks(regions, mem.kernel.end, marks)
    ensures !ok ==> mem.pages.Taken(FIRST_DATA_PAGE, PAGES)
    ensures trace == [] <==> !Suffice(marks, 0, StructureSize(mem.kernel, true))
    ensures trace != [] ==> LowestFirst(marks, booted) && |booted - marks| == StructureSize(mem.kernel, true)
    ensures trace != [] ==>
              Traced(mem.kernel, marks, steps, trace, |trace| - 1) && trace[0].used == booted && trace[0].kept == {}
    ensures ok <==> |trace| == |steps| + 1
    ensures !ok && trace != [] ==> !Affordable(mem.kernel, steps[|trace| - 1], trace[|trace| - 1])
    ensures ok ==> trace[|steps|] == World(mem.ram, mem.pages.used, dirs, trace[|steps|].kept)
    ensures ok ==> dirs != [] && dirs[0] < PAGES && Mapping(mem.ram, dirs[0]) == Initial(mem.kernel, true)
    ensures ok && (forall j :: 0 <= j < |steps| ==> !Clashes(mem.kernel, steps[j], trace[j])) ==>
              trace[|steps|].kept ==
              EndIf(mem.kernel, exists j :: 0 <= j < |steps| && TakesEnd(mem.kernel, steps[j], trace[j]))
    ensures ok && |dirs| == 1 ==> mem.pages.used == booted + trace[|steps|].kept
  {
    hide PageBitmap.Valid, PageBitmap.Balance, PageBitmap.Taken, Initial, Mapping, Directory, Structure, Own, Account;
    hide Spaces, StepOf, Clashes, TakesEnd, Spares, InLimits;
    hide StructureSize, LowestFirst, BootMarks, AlignedEnd, KernelRangeEnd, Affordable, Suffice;
    var dir;
    ok, mem, dir, marks := StartKernel(regions, ram, kernelEnd);
    dirs, booted, trace := [dir], mem.pages.used, [];
    if !ok {
      return;
    }
    BootAligned(regions, mem.kernel, marks, booted);
    FirstSpace(mem.kernel, marks, mem.ram, booted, dir);
    ok, dirs, trace := Run(mem, steps, dirs, marks, {});
    if !ok {
      return;
    }
    RunLeaves(mem.kernel, marks, steps, trace);
  }
}
