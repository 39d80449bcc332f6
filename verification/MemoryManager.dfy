/**
 The memory manager as the kernel runs it: frames, page tables and data pages updated in place.
 Each method is tied to the operation on values that PageTables and Ranges reason about.
 */
module MemoryManager {
  import opened Lists
  import opened Machine
  import opened FrameAllocator
  import opened PageTables
  import opened Addresses
  import opened AddressSpaces
  import opened Ranges
  import opened TableCost

  /** The frames phys, phys + PAGE_SIZE, ... that vmm_map_range maps. */
  function FramesFrom(phys: nat, c: nat): (fs: seq<nat>)
    ensures |fs| == c && forall i :: 0 <= i < c ==> fs[i] == PhysFrame(Wrap64(phys + i * PAGE_SIZE))
  {
    seq(c, i requires 0 <= i < c => PhysFrame(Wrap64(phys + i * PAGE_SIZE)))
  }

  lemma FrameRoundTrip(f: nat)
    requires f < MAX_FRAMES
    ensures f * PAGE_SIZE < TWO64 && PhysFrame(f * PAGE_SIZE) == f && f * PAGE_SIZE / PAGE_SIZE == f
  {
  }

  lemma ForestOf(s: Memory)
    requires WellFormed(s)
    ensures Forest(s.tables) && ValidPool(s.pool)
  {
  }

  /** Only the offset in the page matters, and nothing is mapped where the result is 0. */
  lemma OffsetOnly(e: Option<Entry>, va: nat)
    ensures PhysOf(e, va % PAGE_SIZE) == PhysOf(e, va)
    ensures PhysOf(e, va) != 0 ==> e.Some?
  {
  }

  // ---------------------------------------------------------------- what vmm_init maps

  const KERNEL_PAGES: nat := 32768 // 128 MiB
  const LOW_PAGES: nat := 512 // 2 MiB

  function KernelPaths(): (ps: seq<Path>)
    ensures |ps| == KERNEL_PAGES
  {
    PathsFrom(KERNEL_VIRT_BASE / PAGE_SIZE, KERNEL_PAGES)
  }

  /** The first 128 MiB appear at the kernel's virtual base, the first 2 MiB at address 0. */
  ghost predicate KernelMapped(m: Tables, k: nat) {
    && (forall i: nat :: i < KERNEL_PAGES ==> Leaf(m, k, KernelPaths()[i]) == Some(Entry(i, KERNEL_RW)))
    && (forall i: nat :: i < LOW_PAGES ==> Leaf(m, k, PathOfPage(i)) == Some(Entry(i, KERNEL_RW)))
  }

  /** All of it can be written and executed, and not from user mode. */
  ghost predicate KernelRights(m: Tables, k: nat)
    requires Forest(m) && Root(m, k)
  {
    && (forall i: nat :: i < KERNEL_PAGES ==> Effective(m, k, KernelPaths()[i]) == Some(Rights(true, false, true)))
    && (forall i: nat :: i < LOW_PAGES ==> Effective(m, k, PathOfPage(i)) == Some(Rights(true, false, true)))
  }

  lemma KernelMappedRights(m: Tables, k: nat)
    requires Forest(m) && Root(m, k) && Zoned(m, k) && KernelMapped(m, k)
    ensures KernelRights(m, k)
  {
    hide Leaf;
    hide Effective;
    hide PathOfPage;
    hide KernelPaths;
    hide Zoned;
    forall i: nat | i < KERNEL_PAGES
      ensures Effective(m, k, KernelPaths()[i]) == Some(Rights(true, false, true))
    {
      ZonedRights(m, k, k, KernelPaths()[i]);
    }
    forall i: nat | i < LOW_PAGES
      ensures Effective(m, k, PathOfPage(i)) == Some(Rights(true, false, true))
    {
      ZonedRights(m, k, k, PathOfPage(i));
    }
  }

  lemma FrameOfRange(c: nat, i: nat)
    requires i < c <= MAX_FRAMES
    ensures FramesFrom(0, c)[i] == i
  {
    FrameRoundTrip(i);
  }

  /** Page i of the kernel range lies under page table i / 512 of one page directory. */
  lemma KernelPathAt(i: nat)
    requires i < KERNEL_PAGES
    ensures KernelPaths()[i] == Path(511, 510, i / 512, i % 512)
  {
    var k := KERNEL_VIRT_BASE / PAGE_SIZE + i;
    assert k == 0xF_FFFF_FFF8_0000 + i;
    assert k / 0x800_0000 == 0x1FF_FFFF;
    assert k / 0x4_0000 == 0x3_FFFF_FFFE;
    assert k / 0x200 == 0x7FF_FFFF_FC00 + i / 512;
  }

  lemma LowPathAt(i: nat)
    requires i < LOW_PAGES
    ensures PathOfPage(i) == Path(0, 0, 0, i)
  {
  }

  // ---------------------------------------------------------------- what that costs

  const KERNEL_TABLES: nat := 66 // a PDPT, a PD and 64 page tables
  const LOW_TABLES: nat := 3

  /** The tables of the kernel range, with c page tables. */
  function KernelPlaces(c: nat): (s: set<Place>)
    requires c <= 512
  {
    {AtPdpt(511), AtPd(511, 510)} + PageTablesUpTo(c)
  }

  function PageTablesUpTo(c: nat): (s: set<Place>)
    requires c <= 512
  {
    set j: Index | j < c :: AtPt(511, 510, j)
  }

  lemma {:induction false} CountPageTables(c: nat)
    requires c <= 512
    ensures |PageTablesUpTo(c)| == c
  {
    if c > 0 {
      CountPageTables(c - 1);
      assert PageTablesUpTo(c) == PageTablesUpTo(c - 1) + {AtPt(511, 510, c - 1)};
    }
  }

  lemma CountKernelPlaces()
    ensures |KernelPlaces(64)| == KERNEL_TABLES
  {
    CountPageTables(64);
    assert KernelPlaces(64) == {AtPdpt(511)} + ({AtPd(511, 510)} + PageTablesUpTo(64));
  }

  predicate EmptyRoot(m: Tables, k: nat) {
    Root(m, k) && forall i: Index :: m[k].slots[i] == EMPTY
  }

  lemma EmptyRootNeeds(m: Tables, k: nat, p: Path)
    requires EmptyRoot(m, k)
    ensures Needs(m, k, p) == {AtPdpt(p.i4), AtPd(p.i4, p.i3), AtPt(p.i4, p.i3, p.i2)}
  {
  }

  lemma KernelNeeds(m: Tables, k: nat)
    requires EmptyRoot(m, k)
    ensures NeedsOf(m, k, KernelPaths(), KERNEL_PAGES) == KernelPlaces(64)
  {
    hide Needs;
    hide NeedsOf;
    hide KernelPaths;
    hide EmptyRoot;
    var ps := KernelPaths();
    forall i | 0 <= i < KERNEL_PAGES
      ensures Needs(m, k, ps[i]) <= KernelPlaces(64)
    {
      KernelPathAt(i);
      EmptyRootNeeds(m, k, ps[i]);
    }
    NeedsOfWithin(m, k, ps, KERNEL_PAGES, KernelPlaces(64));
    forall j: Index | j < 64
      ensures {AtPdpt(511), AtPd(511, 510), AtPt(511, 510, j)} <= NeedsOf(m, k, ps, KERNEL_PAGES)
    {
      KernelPathAt(512 * j);
      EmptyRootNeeds(m, k, ps[512 * j]);
      NeedsOfHolds(m, k, ps, KERNEL_PAGES, 512 * j);
    }
    KernelPathAt(0);
    EmptyRootNeeds(m, k, ps[0]);
    NeedsOfHolds(m, k, ps, KERNEL_PAGES, 0);
  }

  /** Once the kernel range has its tables, the low range still needs its own three. */
  lemma LowNeeds(m: Tables, n: Tables, k: nat)
    requires EmptyRoot(m, k) && Made(m, n, k, KernelPlaces(64))
    ensures NeedsOf(n, k, PathsFrom(0, LOW_PAGES), LOW_PAGES) == {AtPdpt(0), AtPd(0, 0), AtPt(0, 0, 0)}
  {
    hide Needs;
    hide NeedsOf;
    hide EmptyRoot;
    var ps, s := PathsFrom(0, LOW_PAGES), {AtPdpt(0), AtPd(0, 0), AtPt(0, 0, 0)};
    forall i: nat | i < LOW_PAGES
      ensures Needs(n, k, ps[i]) == s
    {
      LowPathAt(i);
      EmptyRootNeeds(m, k, ps[i]);
      assert s !! KernelPlaces(64);
    }
    NeedsOfWithin(n, k, ps, LOW_PAGES, s);
    NeedsOfHolds(n, k, ps, LOW_PAGES, 0);
  }

  lemma CostsOf(m: Tables, k: nat)
    requires EmptyRoot(m, k)
    ensures Cost(m, k, KernelPaths(), KERNEL_PAGES) == KERNEL_TABLES
    ensures forall n :: Made(m, n, k, NeedsOf(m, k, KernelPaths(), KERNEL_PAGES)) ==>
              Cost(n, k, PathsFrom(0, LOW_PAGES), LOW_PAGES) == LOW_TABLES
  {
    hide Made;
    hide KernelPaths;
    hide NeedsOf;
    KernelNeeds(m, k);
    CountKernelPlaces();
    forall n | Made(m, n, k, KernelPlaces(64))
      ensures Cost(n, k, PathsFrom(0, LOW_PAGES), LOW_PAGES) == LOW_TABLES
    {
      LowNeeds(m, n, k);
    }
  }

  ghost function KernelRange(s: Memory, k: nat): (n: Memory)
    requires ValidPool(s.pool)
    ensures ValidPool(n.pool)
  {
    MapPages(s, k, KernelPaths(), FramesFrom(0, KERNEL_PAGES), KERNEL_PAGES, KERNEL_RW)
  }

  ghost function LowRange(s: Memory, k: nat): (n: Memory)
    requires ValidPool(s.pool)
    ensures ValidPool(n.pool)
  {
    MapPages(s, k, PathsFrom(0, LOW_PAGES), FramesFrom(0, LOW_PAGES), LOW_PAGES, KERNEL_RW)
  }

  /** The first range comes out whole exactly with frames for its tables; the second leaves it alone. */
  lemma KernelRangeMapped(s: Memory, k: nat)
    requires WellFormed(s) && EmptyRoot(s.tables, k)
    ensures var n := KernelRange(s, k);
            && WellFormed(n) && Root(n.tables, k)
            && (|s.pool.free| >= KERNEL_TABLES ==> |n.pool.free| == |s.pool.free| - KERNEL_TABLES)
            && (|s.pool.free| >= KERNEL_TABLES ==> Cost(n.tables, k, PathsFrom(0, LOW_PAGES), LOW_PAGES) == LOW_TABLES)
            && ((forall i: nat :: i < KERNEL_PAGES ==> Leaf(n.tables, k, KernelPaths()[i]) == Some(Entry(i, KERNEL_RW)))
                <==> |s.pool.free| >= KERNEL_TABLES)
  {
    hide PathOfPage;
    hide Leaf;
    hide MapPages;
    hide Forest;
    hide FramesFrom;
    hide KernelPaths;
    hide Distinct;
    hide Made;
    hide Cost;
    hide OthersKept;
    var ps, fs := KernelPaths(), FramesFrom(0, KERNEL_PAGES);
    KernelPathsDistinct();
    CostsOf(s.tables, k);
    MapRangeKeeps(s, k, ps, fs, KERNEL_PAGES, KERNEL_RW);
    if |s.pool.free| >= KERNEL_TABLES {
      MapRangeMaps(s, k, ps, fs, KERNEL_PAGES, KERNEL_RW);
    }
    MapRangeMapsIff(s, k, ps, fs, KERNEL_PAGES, KERNEL_RW);
    forall i: nat | i < KERNEL_PAGES
      ensures fs[i] == i
    {
      FrameOfRange(KERNEL_PAGES, i);
    }
  }

  lemma LowRangeMapped(s: Memory, k: nat)
    requires WellFormed(s) && Root(s.tables, k)
    ensures var n := LowRange(s, k);
            && (forall p: Path :: p.i4 == 511 ==> Leaf(n.tables, k, p) == Leaf(s.tables, k, p))
            && ((forall i: nat :: i < LOW_PAGES ==> Leaf(n.tables, k, PathOfPage(i)) == Some(Entry(i, KERNEL_RW)))
                <==> |s.pool.free| >= Cost(s.tables, k, PathsFrom(0, LOW_PAGES), LOW_PAGES))
  {
    hide PathOfPage;
    hide Leaf;
    hide MapPages;
    hide Forest;
    hide FramesFrom;
    hide Distinct;
    hide Cost;
    hide OthersKept;
    var ps, fs := PathsFrom(0, LOW_PAGES), FramesFrom(0, LOW_PAGES);
    RangesAreDistinct(0, LOW_PAGES);
    MapRangeMapsIff(s, k, ps, fs, LOW_PAGES, KERNEL_RW);
    forall p: Path | p.i4 == 511
      ensures Leaf(LowRange(s, k).tables, k, p) == Leaf(s.tables, k, p)
    {
      NotLow(p);
      MapRangeElsewhere(s, k, ps, fs, LOW_PAGES, KERNEL_RW, p);
    }
    forall i: nat | i < LOW_PAGES
      ensures fs[i] == i && ps[i] == PathOfPage(i)
    {
      FrameOfRange(LOW_PAGES, i);
    }
  }

  /** vmm_init needs 69 frames for page tables, and with one fewer some page of the two ranges is not mapped. */
  lemma InitMapsIff(s: Memory, k: nat)
    requires WellFormed(s) && EmptyRoot(s.tables, k)
    ensures KernelMapped(LowRange(KernelRange(s, k), k).tables, k)
            <==> |s.pool.free| >= KERNEL_TABLES + LOW_TABLES
  {
    hide PathOfPage;
    hide Leaf;
    hide LowRange;
    hide KernelRange;
    hide Forest;
    hide KernelPaths;
    hide Cost;
    hide EmptyRoot;
    KernelRangeMapped(s, k);
    var n := KernelRange(s, k);
    LowRangeMapped(n, k);
    forall i: nat | i < KERNEL_PAGES
      ensures KernelPaths()[i].i4 == 511
    {
      KernelPathAt(i);
    }
  }

  lemma KernelPathsDistinct()
    ensures Distinct(KernelPaths())
  {
    RangesAreDistinct(KERNEL_VIRT_BASE / PAGE_SIZE, KERNEL_PAGES);
  }

  lemma NotLow(p: Path)
    requires p.i4 == 511
    ensures !InFirst(p, PathsFrom(0, LOW_PAGES), LOW_PAGES)
  {
    hide PathOfPage;
    var qs := PathsFrom(0, LOW_PAGES);
    forall i | 0 <= i < LOW_PAGES
      ensures qs[i] != p
    {
      LowPathAt(i);
    }
  }

  class Mm {
    const pmm: PhysicalFrames
    var tables: Tables
    var data: map<nat, seq<Byte>>
    var kernelPml4: nat

    ghost function State(): (s: Memory)
      reads this, pmm, pmm.bitmap
    {
      Memory(pmm.View(), tables, data)
    }

    ghost predicate Valid()
      reads this, pmm, pmm.bitmap
    {
      pmm.Valid() && WellFormed(State())
    }

    constructor (frames: PhysicalFrames)
      requires frames.Valid()
      ensures Valid() && pmm == frames && tables == map[] && data == map[]
    {
      pmm := frames;
      tables, data, kernelPml4 := map[], map[], 0;
      new;
      pmm.ViewIsValid();
    }

    /** pmm_alloc as the upper layers use it: a frame number, or 0. The frame reads as zeros. */
    method TakeFrame() returns (f: nat)
      requires Valid()
      modifies pmm, pmm.bitmap
      ensures pmm.Valid() && tables == old(tables) && data == old(data)
      ensures ValidPool(old(pmm.View())) && (pmm.View(), f) == Take(old(pmm.View()))
      ensures WellFormed(State())
    {
      var page := pmm.Alloc();
      f := page / PAGE_SIZE;
    }

    method GetOrCreateTable(table: nat, idx: Index, user: bool) returns (t: nat)
      requires Valid() && Inner(tables, table)
      modifies this`tables, pmm, pmm.bitmap
      ensures Valid()
      ensures ValidPool(old(State()).pool) && (State(), t) == GetOrCreate(old(State()), table, idx, user)
    {
      hide Forest;
      hide Grows;
      hide SpentOnTables;
      hide SameLeaves;
      hide FreeIn;
      hide PhysicalFrames.Valid;
      GetOrCreateKeeps(State(), table, idx, user);
      if !tables[table].slots[idx].flags.present {
        var page := TakeFrame();
        if page == 0 {
          return 0;
        }
        tables := Link(tables, table, idx, page, user);
      }
      t := tables[table].slots[idx].frame;
    }

    /** The three get_or_create calls of vmm_map; 0 when one of them fails. */
    method WalkDown(root: nat, p: Path, user: bool) returns (pt: nat)
      requires Valid() && Root(tables, root)
      modifies this`tables, pmm, pmm.bitmap
      ensures Valid()
      ensures ValidPool(old(State()).pool) && (State(), pt) == Descend(old(State()), root, p, user)
    {
      hide GetOrCreate;
      hide WellFormed;
      hide Grows;
      hide SpentOnTables;
      hide SameLeaves;
      hide FreeIn;
      hide PhysicalFrames.Valid;
      ghost var s := State();
      GetOrCreateKeeps(s, root, p.i4, user);
      var pdpt := GetOrCreateTable(root, p.i4, user);
      if pdpt == 0 {
        return 0;
      }
      GetOrCreateKeeps(State(), pdpt, p.i3, user);
      var pd := GetOrCreateTable(pdpt, p.i3, user);
      if pd == 0 {
        return 0;
      }
      pt := GetOrCreateTable(pd, p.i2, user);
    }

    /** vmm_map. */
    method MapPage(root: nat, virt: U64, phys: U64, flags: Flags)
      requires Valid() && Root(tables, root)
      modifies this`tables, pmm, pmm.bitmap
      ensures Valid() && ValidPool(old(State()).pool)
      ensures State() == Map(old(State()), root, PathOf(virt), PhysFrame(phys), flags).0
    {
      hide WellFormed;
      hide PathOf;
      hide Descend;
      hide Forest;
      hide Grows;
      hide SpentOnTables;
      hide SameLeaves;
      hide Updated;
      hide Missing;
      hide FreeIn;
      hide PhysicalFrames.Valid;
      var p := PathOf(virt);
      MapRefinesUpdate(State(), root, p, PhysFrame(phys), flags);
      DescendReaches(State(), root, p, flags.user);
      var pt := WalkDown(root, p, flags.user);
      if pt == 0 {
        return;
      }
      tables := SetSlot(tables, pt, p.i1, Entry(PhysFrame(phys), flags));
    }

    /** vmm_map_range. */
    method MapPageRange(root: nat, virt: U64, phys: U64, size: U64, flags: Flags)
      requires Valid() && Root(tables, root)
      modifies this`tables, pmm, pmm.bitmap
      ensures Valid() && ValidPool(old(State()).pool)
      ensures var c := PageCount(size);
              State() == MapPages(old(State()), root, PathsFrom(virt / PAGE_SIZE, c), FramesFrom(phys, c), c, flags)
    {
      hide PathOf;
      hide PathOfPage;
      hide PhysFrame;
      hide Map;
      hide Forest;
      hide FreeIn;
      hide PhysicalFrames.Valid;
      hide Missing;
      hide Updated;
      hide SameLeaves;
      hide SpentOnTables;
      var pages := PageCount(size);
      ghost var s := State();
      ghost var ps, fs := PathsFrom(virt / PAGE_SIZE, pages), FramesFrom(phys, pages);
      var i := 0;
      while i < pages
        invariant i <= pages && Valid() && Root(tables, root)
        invariant State() == MapPages(s, root, ps, fs, i, flags)
      {
        PathInRange(virt, i);
        MapRefinesUpdate(State(), root, ps[i], fs[i], flags);
        MapPage(root, Wrap64(virt + i * PAGE_SIZE), Wrap64(phys + i * PAGE_SIZE), flags);
        i := i + 1;
      }
    }

    /** vmm_unmap: the walk stops at the first table that is not there. */
    method UnmapPage(root: nat, virt: U64)
      requires Valid() && Root(tables, root)
      modifies this`tables
      ensures Valid()
      ensures State() == Unmap(old(State()), root, PathOf(virt))
    {
      hide PathOf;
      hide Leaf;
      var p := PathOf(virt);
      UnmapRefinesDelete(State(), root, p);
      if !tables[root].slots[p.i4].flags.present {
        return;
      }
      assert Linked(tables, root, p.i4);
      var pdpt := tables[root].slots[p.i4].frame;
      if !tables[pdpt].slots[p.i3].flags.present {
        return;
      }
      assert Linked(tables, pdpt, p.i3);
      var pd := tables[pdpt].slots[p.i3].frame;
      if !tables[pd].slots[p.i2].flags.present {
        return;
      }
      assert Linked(tables, pd, p.i2);
      var pt := tables[pd].slots[p.i2].frame;
      tables := SetSlot(tables, pt, p.i1, EMPTY);
    }

    /** The copy loop of vmm_create_address_space, over a zeroed PML4. */
    static method CopyUpperHalf(kernel: Slots) returns (slots: Slots)
      ensures slots == UpperHalf(kernel)
    {
      slots := EmptySlots();
      var i := 256;
      while i < 512
        invariant 256 <= i <= 512
        invariant forall j: Index :: slots[j] == if 256 <= j < i then kernel[j] else EMPTY
      {
        slots := slots[i := kernel[i]];
        i := i + 1;
      }
    }

    /** vmm_create_address_space: the kernel's upper half is copied slot by slot. */
    method CreateAddressSpace() returns (root: nat)
      requires Valid() && Root(tables, kernelPml4)
      modifies this`tables, pmm, pmm.bitmap
      ensures Valid()
      ensures ValidPool(old(State()).pool) && (State(), root) == CreateSpace(old(State()), kernelPml4)
    {
      hide Forest;
      hide Grows;
      hide SpentOnTables;
      hide SameLeaves;
      hide FreeIn;
      hide PhysicalFrames.Valid;
      hide Leaf;
      hide Take;
      hide UpperHalf;
      CreateSpaceSharesKernel(State(), kernelPml4);
      hide WellFormed;
      root := TakeFrame();
      if root == 0 {
        return;
      }
      var slots := CopyUpperHalf(tables[kernelPml4].slots);
      tables := tables[root := Table(slots, Origin(4, 0, 0, false))];
    }

    /**
     vmm_init: the first 128 MiB at the kernel's virtual base, the first 2 MiB at address 0. Without
     a frame for the PML4 the kernel halts, which the result false stands for.
     */
    method InitKernel() returns (ok: bool)
      requires Valid() && tables == map[]
      modifies this, pmm, pmm.bitmap
      ensures ok <==> old(pmm.Free()) != {}
      ensures ok ==> Valid() && Root(tables, kernelPml4) && Zoned(tables, kernelPml4) && UpperClosed(tables)
      ensures ok && |old(pmm.Free())| >= 4 ==> tables[kernelPml4].slots[511].flags.present
      ensures ok ==> (KernelMapped(tables, kernelPml4) <==> |old(pmm.Free())| > KERNEL_TABLES + LOW_TABLES)
      ensures ok && KernelMapped(tables, kernelPml4) ==> KernelRights(tables, kernelPml4)
    {
      hide Zoned;
      hide UpperClosed;
      hide Forest;
      hide MapPages;
      hide PathOfPage;
      hide FreeIn;
      hide KernelMapped;
      hide KernelPaths;
      ghost var s := State();
      BootRootStarts(s);
      kernelPml4 := TakeFrame();
      if kernelPml4 == 0 {
        return false;
      }
      tables := tables[kernelPml4 := Table(EmptySlots(), Origin(4, 0, 0, false))];
      assert State() == BootRoot(s).0;
      MapKernelRanges();
      if KernelMapped(tables, kernelPml4) {
        KernelMappedRights(tables, kernelPml4);
      }
      hide KernelRights;
      ok := true;
    }

    /** The two loops of vmm_init. */
    method MapKernelRanges()
      requires Valid() && Root(tables, kernelPml4) && Zoned(tables, kernelPml4) && UpperClosed(tables)
      modifies this`tables, pmm, pmm.bitmap
      ensures Valid() && Root(tables, kernelPml4) && Zoned(tables, kernelPml4) && UpperClosed(tables)
      ensures |old(pmm.Free())| >= 3 ==> tables[kernelPml4].slots[511].flags.present
      ensures old(EmptyRoot(tables, kernelPml4)) ==>
                (KernelMapped(tables, kernelPml4) <==> |old(pmm.Free())| >= KERNEL_TABLES + LOW_TABLES)
    {
      hide Zoned;
      hide UpperClosed;
      hide Forest;
      hide MapPages;
      hide PathOfPage;
      hide FreeIn;
      hide KernelMapped;
      hide FramesFrom;
      hide PhysicalFrames.Valid;
      ghost var s := State();
      if EmptyRoot(tables, kernelPml4) {
        InitMapsIff(s, kernelPml4);
      }
      var big, small := 128 * 1024 * 1024, 2 * 1024 * 1024;
      RangeSizes();
      KernelRangeKeepsStart(s, kernelPml4, KernelPaths(), FramesFrom(0, KERNEL_PAGES), KERNEL_PAGES, KERNEL_RW);
      KernelPathAt(0);
      MapPageRange(kernelPml4, KERNEL_VIRT_BASE, 0, big, KERNEL_RW);
      ghost var ps, fs := PathsFrom(0, LOW_PAGES), FramesFrom(0, LOW_PAGES);
      KernelRangeKeepsStart(State(), kernelPml4, ps, fs, LOW_PAGES, KERNEL_RW);
      MapPageRange(kernelPml4, 0, 0, small, KERNEL_RW);
    }

    static lemma RangeSizes()
      ensures PageCount(128 * 1024 * 1024) == KERNEL_PAGES && PageCount(2 * 1024 * 1024) == LOW_PAGES
    {
    }

    /** vmm_alloc_map: the physical address, or 0. */
    method AllocMapPage(root: nat, virt: U64, flags: Flags) returns (phys: nat)
      requires Valid() && Root(tables, root)
      modifies this`tables, this`data, pmm, pmm.bitmap
      ensures Valid() && ValidPool(old(State()).pool) && phys % PAGE_SIZE == 0
      ensures (State(), phys / PAGE_SIZE) == AllocMap(old(State()), root, PathOf(virt), flags)
    {
      hide FreeIn;
      hide PhysicalFrames.Valid;
      hide Take;
      hide PathOf;
      hide Leaf;
      hide Map;
      hide Forest;
      var f := TakeFrame();
      if f == 0 {
        return 0;
      }
      data := data[f := Zeros(PAGE_SIZE)];
      assert WellFormed(State());
      FrameRoundTrip(f);
      MapPage(root, virt, f * PAGE_SIZE, flags);
      phys := f * PAGE_SIZE;
    }

    /** vmm_alloc_range; false is the -1 of the source. */
    method AllocPageRange(root: nat, virt: U64, size: U64, flags: Flags) returns (ok: bool)
      requires Valid() && Root(tables, root)
      modifies this`tables, this`data, pmm, pmm.bitmap
      ensures Valid() && Root(tables, root) && ValidPool(old(State()).pool)
      ensures var c := PageCount(size);
              (State(), ok) == AllocPages(old(State()), root, PathsFrom(virt / PAGE_SIZE, c), c, flags)
    {
      hide FreeIn;
      hide PhysicalFrames.Valid;
      hide Grows;
      hide FreeIn;
      hide PathOf;
      hide PathOfPage;
      hide AllocMap;
      hide Forest;
      var pages := PageCount(size);
      ghost var s := State();
      ghost var ps := PathsFrom(virt / PAGE_SIZE, pages);
      var i := 0;
      while i < pages
        invariant i <= pages && Valid() && Root(tables, root)
        invariant (State(), true) == AllocPages(s, root, ps, i, flags)
      {
        PathInRange(virt, i);
        AllocMapKeeps(State(), root, ps[i], flags);
        ghost var before := tables;
        var phys := AllocMapPage(root, Wrap64(virt + i * PAGE_SIZE), flags);
        RootStays(before, tables, root);
        i := i + 1;
        if phys == 0 {
          FailureSticks(s, root, ps, i, pages, flags);
          return false;
        }
      }
      ok := true;
    }

    /** One round of vmm_free_range. */
    method FreeOnePage(root: nat, va: U64)
      requires Valid() && Root(tables, root)
      requires Leaf(tables, root, PathOf(va)).Some? ==> FrameAt(tables, root, PathOf(va)) in data
      modifies this`tables, this`data, pmm, pmm.bitmap
      ensures Valid() && Root(tables, root) && ValidPool(old(State()).pool)
      ensures State() == FreePage(old(State()), root, PathOf(va), va % PAGE_SIZE)
    {
      hide PhysicalFrames.Valid;
      hide PathOf;
      hide Leaf;
      hide Translate;
      hide Unmap;
      hide Forest;
      hide Updated;
      hide FreeIn;
      hide WellFormed;
      hide Grows;
      hide Give;
      hide PhysOf;
      ghost var s := State();
      ForestOf(s);
      TranslateIsLookup(tables, root, va);
      OffsetOnly(Leaf(tables, root, PathOf(va)), va);
      var phys := Translate(tables, root, va);
      if phys != 0 {
        UnmapRefinesDelete(s, root, PathOf(va));
        FreePageReleases(s, root, PathOf(va), va % PAGE_SIZE);
        UnmapPage(root, va);
        RootStays(s.tables, tables, root);
        pmm.FreePage(phys);
        data := data - {phys / PAGE_SIZE};
      }
    }

    /** vmm_free_range, on pages that are mapped to data frames of their own or not at all. */
    method FreePageRange(root: nat, virt: U64, size: U64)
      requires Valid() && Root(tables, root)
      requires Releasable(State(), root, PathsFrom(virt / PAGE_SIZE, PageCount(size)))
      modifies this`tables, this`data, pmm, pmm.bitmap
      ensures Valid() && Root(tables, root) && ValidPool(old(State()).pool)
      ensures var c := PageCount(size);
              State() == FreePages(old(State()), root, PathsFrom(virt / PAGE_SIZE, c), virt % PAGE_SIZE, c)
    {
      hide PathOf;
      hide PathOfPage;
      hide Leaf;
      hide FreePage;
      hide Forest;
      hide FreeIn;
      hide PhysicalFrames.Valid;
      var pages := PageCount(size);
      ghost var s := State();
      ghost var ps, off := PathsFrom(virt / PAGE_SIZE, pages), virt % PAGE_SIZE;
      var i := 0;
      while i < pages
        invariant i <= pages && Valid() && Root(tables, root)
        invariant State() == FreePages(s, root, ps, off, i)
        invariant Releasable(State(), root, ps)
      {
        PathInRange(virt, i);
        OffsetInRange(virt, i);
        FreePageKeepsReleasable(State(), root, ps, i, off);
        FreeOnePage(root, Wrap64(virt + i * PAGE_SIZE));
        i := i + 1;
      }
    }
  }
}
